/**
 * Crossword derivation (src/services/crossword_service.rs): building the
 * renderable grid and clue lists from the Guardian's entry list, reading
 * crossword numbers from the series page's links, and choosing which of them
 * still need to be imported.
 */
module CrosswordService {
  import opened Wrappers
  import opened ApiModels
  import Guardian
  import opened Errors
  import ParseInt

  type Entry = Guardian.GuardianEntry

  /** A clue that passes through a square, with the number shown there if the clue starts there. */
  type Candidate = (ClueId, Option<int>)

  /** A grid index together with one candidate for that square. */
  type Placement = (int, Candidate)

  // ---------------------------------------------------------------------------
  // Grid derivation
  // ---------------------------------------------------------------------------

  /** `guardian_to_dto_direction`. */
  function GuardianToDtoDirection(direction: Guardian.GuardianDirection): (r: Direction)
    ensures r.Across? <==> direction.Across?
    ensures r.Down? <==> direction.Down?
  {
    match direction
    case Across => Direction.Across
    case Down => Direction.Down
  }

  function ClueIdOf(entry: Entry): ClueId {
    ClueId(entry.number, GuardianToDtoDirection(entry.direction))
  }

  /** The row-major index of the entry's first square. */
  function StartIndex(entry: Entry, columns: int): int {
    entry.position.x + entry.position.y * columns
  }

  /** The distance between consecutive squares of the entry: one square across, one row down. */
  function Step(entry: Entry, columns: int): int {
    if entry.direction.Across? then 1 else columns
  }

  /** The number of squares the entry is given: its length, but at least its first square. */
  function Span(entry: Entry): nat {
    if entry.length > 1 then entry.length else 1
  }

  /**
   * `to_interim_clue`: one placement per square of the entry. The squares after
   * the first come first, each without a number; the first square, carrying
   * the entry's number, is appended last.
   */
  function ToInterimClue(entry: Entry, columns: int): (r: seq<Placement>)
    ensures |r| == Span(entry)
  {
    var clueId := ClueIdOf(entry);
    var initialIndex := StartIndex(entry, columns);
    var increment := Step(entry, columns);
    var firstPosition := (initialIndex, (clueId, Some(entry.number)));
    var otherPositions :=
      seq(if entry.length > 1 then entry.length - 1 else 0,
          i => (initialIndex + (i + 1) * increment, (clueId, None)));
    otherPositions + [firstPosition]
  }

  /** The `flat_map` of `to_interim_clue` over the entries, in entry order. */
  function AllPlacements(entries: seq<Entry>, columns: int): (r: seq<Placement>)
    ensures |r| >= |entries|
    ensures forall e :: e in entries ==> (StartIndex(e, columns), (ClueIdOf(e), Some(e.number))) in r
  {
    if entries == [] then []
    else AllPlacements(entries[..|entries| - 1], columns) + ToInterimClue(entries[|entries| - 1], columns)
  }

  /** The candidates recorded for index `k`, in the order they were produced. */
  function CandidatesAt(placements: seq<Placement>, k: int): seq<Candidate> {
    if placements == [] then []
    else
      var last := placements[|placements| - 1];
      CandidatesAt(placements[..|placements| - 1], k) + (if last.0 == k then [last.1] else [])
  }

  /**
   * `into_group_map`: each index that occurs maps to its candidates, in the
   * order they were produced.
   */
  function GroupByIndex(placements: seq<Placement>): (groups: map<int, seq<Candidate>>)
    ensures forall k :: k in groups <==> CandidatesAt(placements, k) != []
    ensures forall k :: k in groups ==> groups[k] == CandidatesAt(placements, k)
  {
    if placements == [] then map[]
    else
      var groups := GroupByIndex(placements[..|placements| - 1]);
      var (k, candidate) := placements[|placements| - 1];
      groups[k := (if k in groups then groups[k] else []) + [candidate]]
  }

  function Lookup(groups: map<int, seq<Candidate>>, k: int): Option<seq<Candidate>> {
    if k in groups then Some(groups[k]) else None
  }

  /**
   * `get_cell`: black when no candidate is recorded; otherwise white, with the
   * first two candidates' clues and the first number either of them shows.
   */
  function GetCell(clueItems: Option<seq<Candidate>>): (cell: Cell)
    ensures cell.Black? <==> clueItems.None? || clueItems.value == []
    ensures cell.White? ==> cell.cellData.clueId == clueItems.value[0].0
    ensures cell.White? ==>
              cell.cellData.clueId2 == (if |clueItems.value| > 1 then Some(clueItems.value[1].0) else None)
    ensures cell.White? ==>
              cell.cellData.number == (if clueItems.value[0].1.Some? then clueItems.value[0].1
                                       else if |clueItems.value| > 1 then clueItems.value[1].1
                                       else None)
  {
    match clueItems
    case None => Black
    case Some(clues) =>
      if clues == [] then Black
      else
        var firstClue := clues[0];
        var secondClue := if |clues| > 1 then Some(clues[1]) else None;
        var number :=
          if firstClue.1.Some? then firstClue.1
          else if secondClue.Some? then secondClue.value.1
          else None;
        White(CellData(number, firstClue.0, if secondClue.Some? then Some(secondClue.value.0) else None))
  }

  /** Candidates after the second never change the cell. */
  lemma GetCellIgnoresRest(clues: seq<Candidate>, more: seq<Candidate>)
    requires |clues| == 2
    ensures GetCell(Some(clues + more)) == GetCell(Some(clues))
  {
    assert (clues + more)[0] == clues[0] && (clues + more)[1] == clues[1];
  }

  /** The number of indices `0..cols * rows` covers (none when the product is not positive). */
  function GridSize(dimensions: Guardian.Dimensions): nat {
    if dimensions.cols * dimensions.rows > 0 then dimensions.cols * dimensions.rows else 0
  }

  /** The `partition` by direction: across entries first component, down entries second. */
  function Partition(entries: seq<Entry>): (r: (seq<Entry>, seq<Entry>))
    ensures forall e :: e in r.0 ==> e in entries && e.direction.Across?
    ensures forall e :: e in r.1 ==> e in entries && e.direction.Down?
    ensures |r.0| + |r.1| == |entries|
  {
    if entries == [] then ([], [])
    else
      var rest := Partition(entries[..|entries| - 1]);
      var last := entries[|entries| - 1];
      if last.direction.Across? then (rest.0 + [last], rest.1) else (rest.0, rest.1 + [last])
  }

  /** No entry is lost or duplicated by the split. */
  lemma {:induction false} PartitionPermutation(entries: seq<Entry>)
    ensures multiset(Partition(entries).0) + multiset(Partition(entries).1) == multiset(entries)
  {
    if entries != [] {
      var prefix, last := entries[..|entries| - 1], entries[|entries| - 1];
      PartitionPermutation(prefix);
      assert entries == prefix + [last];
    }
  }

  /** `to_clues`: each entry's number and clue text. */
  function ToClues(entries: seq<Entry>): (r: seq<Clue>)
    ensures |r| == |entries|
    ensures forall i :: 0 <= i < |r| ==> r[i] == Clue(entries[i].number, entries[i].clue)
  {
    seq(|entries|, i requires 0 <= i < |entries| => Clue(entries[i].number, entries[i].clue))
  }

  /** The grid part of `guardian_to_crossword_dto`: one cell per index `0..cols * rows`. */
  function Grid(entries: seq<Entry>, dimensions: Guardian.Dimensions): (grid: seq<Cell>)
    ensures |grid| == GridSize(dimensions)
  {
    var indexToClueItems := GroupByIndex(AllPlacements(entries, dimensions.cols));
    seq(GridSize(dimensions), k => GetCell(Lookup(indexToClueItems, k)))
  }

  /** `guardian_to_crossword_dto`. */
  function GuardianToCrosswordDto(crossword: Guardian.GuardianCrossword): (dto: CrosswordDto)
    ensures dto.numberOfColumns == crossword.dimensions.cols
    ensures dto.numberOfRows == crossword.dimensions.rows
    ensures |dto.grid| == GridSize(crossword.dimensions)
    ensures |dto.clues.across| + |dto.clues.down| == |crossword.entries|
  {
    var (across, down) := Partition(crossword.entries);
    var grid := Grid(crossword.entries, crossword.dimensions);
    CrosswordDto(crossword.dimensions.cols, crossword.dimensions.rows, grid, Clues(ToClues(across), ToClues(down)))
  }

  /** Every entry lands in the part of its direction. */
  lemma {:induction false} PartitionCovers(entries: seq<Entry>)
    ensures forall i :: 0 <= i < |entries| && entries[i].direction.Across? ==> entries[i] in Partition(entries).0
    ensures forall i :: 0 <= i < |entries| && entries[i].direction.Down? ==> entries[i] in Partition(entries).1
  {
    if entries != [] {
      var prefix, last := entries[..|entries| - 1], entries[|entries| - 1];
      PartitionCovers(prefix);
      assert prefix + [last] == entries;
      PartitionSnoc(prefix, last);
      forall i | 0 <= i < |entries| - 1 ensures entries[i] == prefix[i] { }
    }
  }

  /** The clue list of one part holds exactly the clues of the entries of that part's direction. */
  lemma PartClues(part: seq<Entry>, entries: seq<Entry>, across: bool)
    requires forall e :: e in part ==> e in entries && e.direction.Across? == across
    requires forall i :: 0 <= i < |entries| && entries[i].direction.Across? == across ==> entries[i] in part
    ensures forall c :: c in ToClues(part) <==>
              exists e :: e in entries && e.direction.Across? == across && c == Clue(e.number, e.clue)
  {
    var clues := ToClues(part);
    forall c ensures c in clues <==> exists e :: e in entries && e.direction.Across? == across && c == Clue(e.number, e.clue) {
      if c in clues {
        var i :| 0 <= i < |clues| && clues[i] == c;
        assert part[i] in part;
      }
      if e :| e in entries && e.direction.Across? == across && c == Clue(e.number, e.clue) {
        var k :| 0 <= k < |entries| && entries[k] == e;
        var i :| 0 <= i < |part| && part[i] == e;
        assert clues[i] == c;
      }
    }
  }

  /**
   * The across list holds exactly the clues of the across entries, the down
   * list exactly those of the down entries.
   */
  lemma CluesMatchEntries(crossword: Guardian.GuardianCrossword)
    ensures var dto := GuardianToCrosswordDto(crossword);
            forall c :: c in dto.clues.across <==>
              exists e :: e in crossword.entries && e.direction.Across? && c == Clue(e.number, e.clue)
    ensures var dto := GuardianToCrosswordDto(crossword);
            forall c :: c in dto.clues.down <==>
              exists e :: e in crossword.entries && e.direction.Down? && c == Clue(e.number, e.clue)
  {
    var parts := Partition(crossword.entries);
    assert GuardianToCrosswordDto(crossword).clues == Clues(ToClues(parts.0), ToClues(parts.1));
    PartitionCovers(crossword.entries);
    PartClues(parts.0, crossword.entries, true);
    PartClues(parts.1, crossword.entries, false);
  }

  // ---------------------------------------------------------------------------
  // What the grid means, stated in terms of the entries
  // ---------------------------------------------------------------------------

  /** Entry `entry` covers index `k`: its first square, or one of the `Span - 1` squares after it. */
  ghost predicate Occupies(entry: Entry, columns: int, k: int) {
    exists t :: 0 <= t < Span(entry) && k == StartIndex(entry, columns) + t * Step(entry, columns)
  }

  /** The number an entry shows at index `k`: its own number at its first square, nothing elsewhere. */
  function ShownNumber(entry: Entry, columns: int, k: int): Option<int> {
    if StartIndex(entry, columns) == k then Some(entry.number) else None
  }

  /** The entries that cover index `k`, in entry order. */
  ghost function Occupants(entries: seq<Entry>, columns: int, k: int): (r: seq<Entry>)
    ensures forall e :: e in r <==> e in entries && Occupies(e, columns, k)
  {
    if entries == [] then []
    else
      var last := entries[|entries| - 1];
      Occupants(entries[..|entries| - 1], columns, k) + (if Occupies(last, columns, k) then [last] else [])
  }

  /** The candidate each occupant contributes at index `k`. */
  function CandidatesFor(occupants: seq<Entry>, columns: int, k: int): (r: seq<Candidate>)
    ensures |r| == |occupants|
  {
    if occupants == [] then []
    else
      var last := occupants[|occupants| - 1];
      CandidatesFor(occupants[..|occupants| - 1], columns, k) + [(ClueIdOf(last), ShownNumber(last, columns, k))]
  }

  /**
   * The square at index `k` as the entries determine it: black when nothing
   * covers it; otherwise white with the first occupant's clue, the second
   * occupant's clue if there is one, and the number of the first of those two
   * that starts at `k`.
   */
  ghost function ExpectedCell(entries: seq<Entry>, columns: int, k: int): Cell {
    CellOf(Occupants(entries, columns, k), columns, k)
  }

  /** The square at index `k` given the entries covering it, in entry order. */
  function CellOf(occupants: seq<Entry>, columns: int, k: int): Cell {
    if occupants == [] then Black
    else
      var first := occupants[0];
      var number :=
        if ShownNumber(first, columns, k).Some? then ShownNumber(first, columns, k)
        else if |occupants| > 1 then ShownNumber(occupants[1], columns, k)
        else None;
      White(CellData(number, ClueIdOf(first), if |occupants| > 1 then Some(ClueIdOf(occupants[1])) else None))
  }

  lemma {:induction false} CandidatesAtAppend(a: seq<Placement>, b: seq<Placement>, k: int)
    ensures CandidatesAt(a + b, k) == CandidatesAt(a, k) + CandidatesAt(b, k)
  {
    if b == [] {
      assert a + b == a;
    } else {
      var ab := a + b;
      assert ab[..|ab| - 1] == a + b[..|b| - 1];
      assert ab[|ab| - 1] == b[|b| - 1];
      CandidatesAtAppend(a, b[..|b| - 1], k);
    }
  }

  lemma {:induction false} CandidatesAtAbsent(placements: seq<Placement>, k: int)
    requires forall j :: 0 <= j < |placements| ==> placements[j].0 != k
    ensures CandidatesAt(placements, k) == []
  {
    if placements != [] {
      CandidatesAtAbsent(placements[..|placements| - 1], k);
    }
  }

  lemma {:induction false} CandidatesAtSingle(placements: seq<Placement>, k: int, j: nat)
    requires j < |placements| && placements[j].0 == k
    requires forall i :: 0 <= i < |placements| && i != j ==> placements[i].0 != k
    ensures CandidatesAt(placements, k) == [placements[j].1]
  {
    var n := |placements|;
    if j == n - 1 {
      CandidatesAtAbsent(placements[..n - 1], k);
    } else {
      CandidatesAtSingle(placements[..n - 1], k, j);
    }
  }

  /** The index of the square `j + 1` steps after `start`. */
  function OtherIndex(start: int, step: int, j: int): int {
    start + (j + 1) * step
  }

  lemma OtherIndexIncreasing(start: int, step: int, i: int, j: int)
    requires -1 <= i < j && step >= 1
    ensures start + (i + 1) * step < OtherIndex(start, step, j)
  {
    assert (j + 1) * step - (i + 1) * step == (j - i) * step;
  }

  /** The placements `to_interim_clue` produces, square by square. */
  lemma InterimClueShape(entry: Entry, columns: int)
    ensures var r := ToInterimClue(entry, columns);
            && r[|r| - 1] == (StartIndex(entry, columns), (ClueIdOf(entry), Some(entry.number)))
            && forall j :: 0 <= j < |r| - 1 ==>
                 r[j] == (OtherIndex(StartIndex(entry, columns), Step(entry, columns), j), (ClueIdOf(entry), None))
  {
  }

  lemma OccupiesAsOther(entry: Entry, columns: int, k: int)
    requires k != StartIndex(entry, columns)
    ensures Occupies(entry, columns, k) <==>
            exists j :: 0 <= j < Span(entry) - 1 && k == OtherIndex(StartIndex(entry, columns), Step(entry, columns), j)
  {
    var start, step := StartIndex(entry, columns), Step(entry, columns);
    if Occupies(entry, columns, k) {
      var t :| 0 <= t < Span(entry) && k == start + t * step;
      assert t != 0;
      assert k == OtherIndex(start, step, t - 1);
    }
    if j :| 0 <= j < Span(entry) - 1 && k == OtherIndex(start, step, j) {
      assert k == start + (j + 1) * step;
    }
  }

  /**
   * With at least one column, an entry records exactly one candidate at each
   * index it covers and none elsewhere; the candidate shows the entry's number
   * only at the entry's first square.
   */
  lemma CandidatesOfEntry(entry: Entry, columns: int, k: int)
    requires columns >= 1
    ensures CandidatesAt(ToInterimClue(entry, columns), k) ==
            if Occupies(entry, columns, k) then [(ClueIdOf(entry), ShownNumber(entry, columns, k))] else []
  {
    var r := ToInterimClue(entry, columns);
    var n := |r|;
    var start, step := StartIndex(entry, columns), Step(entry, columns);
    InterimClueShape(entry, columns);
    var others := r[..n - 1];
    assert r == others + [r[n - 1]];
    CandidatesAtAppend(others, [r[n - 1]], k);
    assert [r[n - 1]][..0] == [];
    if k == start {
      forall j | 0 <= j < n - 1 ensures others[j].0 != k {
        OtherIndexIncreasing(start, step, -1, j);
      }
      CandidatesAtAbsent(others, k);
      assert k == start + 0 * step;
    } else {
      OccupiesAsOther(entry, columns, k);
      if j :| 0 <= j < n - 1 && others[j].0 == k {
        forall i | 0 <= i < n - 1 && i != j ensures others[i].0 != k {
          if i < j { OtherIndexIncreasing(start, step, i, j); } else { OtherIndexIncreasing(start, step, j, i); }
        }
        CandidatesAtSingle(others, k, j);
      } else {
        CandidatesAtAbsent(others, k);
      }
    }
  }

  /** The candidates recorded at index `k` are, in entry order, those of the entries covering `k`. */
  lemma {:induction false} CandidatesOfEntries(entries: seq<Entry>, columns: int, k: int)
    requires columns >= 1
    ensures CandidatesAt(AllPlacements(entries, columns), k) ==
            CandidatesFor(Occupants(entries, columns, k), columns, k)
  {
    if entries != [] {
      var prefix, last := entries[..|entries| - 1], entries[|entries| - 1];
      CandidatesOfEntries(prefix, columns, k);
      CandidatesAtAppend(AllPlacements(prefix, columns), ToInterimClue(last, columns), k);
      CandidatesOfEntry(last, columns, k);
      var occupants := Occupants(prefix, columns, k);
      if Occupies(last, columns, k) {
        assert (occupants + [last])[..|occupants|] == occupants;
      } else {
        assert occupants + [] == occupants;
      }
    }
  }

  /**
   * Every square of the grid is what the entries determine: black when no entry
   * covers it, otherwise white with the first two covering entries' clues (in
   * entry order) and the number of the first of them that starts there.
   */
  lemma GridCellMatchesEntries(crossword: Guardian.GuardianCrossword, k: int)
    requires crossword.dimensions.cols >= 1
    requires 0 <= k < GridSize(crossword.dimensions)
    ensures GuardianToCrosswordDto(crossword).grid[k] ==
            ExpectedCell(crossword.entries, crossword.dimensions.cols, k)
  {
    var columns := crossword.dimensions.cols;
    var placements := AllPlacements(crossword.entries, columns);
    assert GuardianToCrosswordDto(crossword).grid[k] == GetCell(Lookup(GroupByIndex(placements), k));
    CandidatesOfEntries(crossword.entries, columns, k);
    CellOfCandidates(Occupants(crossword.entries, columns, k), columns, k);
  }

  /** `get_cell` applied to the candidates of the covering entries gives `CellOf` those entries. */
  lemma CellOfCandidates(occupants: seq<Entry>, columns: int, k: int)
    ensures var candidates := CandidatesFor(occupants, columns, k);
            GetCell(if candidates == [] then None else Some(candidates)) == CellOf(occupants, columns, k)
  {
    var candidates := CandidatesFor(occupants, columns, k);
    CandidatesForAt(occupants, columns, k);
  }

  lemma {:induction false} CandidatesForAt(occupants: seq<Entry>, columns: int, k: int)
    ensures forall i :: 0 <= i < |occupants| ==>
              CandidatesFor(occupants, columns, k)[i] == (ClueIdOf(occupants[i]), ShownNumber(occupants[i], columns, k))
  {
    if occupants != [] {
      CandidatesForAt(occupants[..|occupants| - 1], columns, k);
    }
  }

  /** A square is black exactly when no entry covers it. */
  lemma BlackIffUnoccupied(crossword: Guardian.GuardianCrossword, k: int)
    requires crossword.dimensions.cols >= 1
    requires 0 <= k < GridSize(crossword.dimensions)
    ensures GuardianToCrosswordDto(crossword).grid[k].Black? <==>
            forall e :: e in crossword.entries ==> !Occupies(e, crossword.dimensions.cols, k)
  {
    GridCellMatchesEntries(crossword, k);
    var occupants := Occupants(crossword.entries, crossword.dimensions.cols, k);
    if occupants != [] {
      assert occupants[0] in occupants;
    }
  }

  /** A white square's main clue belongs to an entry that covers the square. */
  lemma WhiteCellClueCoversIt(crossword: Guardian.GuardianCrossword, k: int)
    requires crossword.dimensions.cols >= 1
    requires 0 <= k < GridSize(crossword.dimensions)
    requires GuardianToCrosswordDto(crossword).grid[k].White?
    ensures exists e :: e in crossword.entries && Occupies(e, crossword.dimensions.cols, k) &&
                        ClueIdOf(e) == GuardianToCrosswordDto(crossword).grid[k].cellData.clueId
  {
    GridCellMatchesEntries(crossword, k);
    var occupants := Occupants(crossword.entries, crossword.dimensions.cols, k);
    assert occupants[0] in occupants;
  }

  /**
   * When at most two entries cover a square (as in any real crossword), the
   * square shows a number exactly when some entry starts there.
   */
  lemma NumberedIffStart(crossword: Guardian.GuardianCrossword, k: int)
    requires crossword.dimensions.cols >= 1
    requires 0 <= k < GridSize(crossword.dimensions)
    requires |Occupants(crossword.entries, crossword.dimensions.cols, k)| <= 2
    ensures (GuardianToCrosswordDto(crossword).grid[k].White? &&
             GuardianToCrosswordDto(crossword).grid[k].cellData.number.Some?) <==>
            exists e :: e in crossword.entries && StartIndex(e, crossword.dimensions.cols) == k
  {
    GridCellMatchesEntries(crossword, k);
    ExpectedNumberIffStart(crossword.entries, crossword.dimensions.cols, k);
  }

  lemma ExpectedNumberIffStart(entries: seq<Entry>, columns: int, k: int)
    requires |Occupants(entries, columns, k)| <= 2
    ensures (ExpectedCell(entries, columns, k).White? && ExpectedCell(entries, columns, k).cellData.number.Some?) <==>
            exists e :: e in entries && StartIndex(e, columns) == k
  {
    var occupants := Occupants(entries, columns, k);
    var cell := ExpectedCell(entries, columns, k);
    if cell.White? && cell.cellData.number.Some? {
      var i := if ShownNumber(occupants[0], columns, k).Some? then 0 else 1;
      assert occupants[i] in occupants;
      assert StartIndex(occupants[i], columns) == k;
    }
    if e :| e in entries && StartIndex(e, columns) == k {
      assert k == StartIndex(e, columns) + 0 * Step(e, columns);
      assert Occupies(e, columns, k);
      assert e in occupants;
      var i :| 0 <= i < |occupants| && occupants[i] == e;
      assert ShownNumber(occupants[i], columns, k).Some?;
    }
  }

  /**
   * A 3x1 grid holding one across entry of length 3 at the origin: three white
   * squares of clue 1-across, the first numbered 1, and a single across clue.
   */
  lemma OneAcrossEntryGrid(clue: string)
    ensures var entry := Guardian.GuardianEntry("1-across", 1, "1", clue, Guardian.Across, 3, ["1-across"],
                                                Guardian.Position(0, 0), Guardian.SeparatorLocations([]), "CAT");
            var crossword := Guardian.GuardianCrossword("1", 1, "Cryptic 1", Guardian.GuardianCreator("", ""), 0, 0,
                                                        [entry], false, 0, Guardian.Dimensions(3, 1), "cryptic", "", None);
            var oneAcross := ClueId(1, Direction.Across);
            GuardianToCrosswordDto(crossword) ==
            CrosswordDto(3, 1,
                         [White(CellData(Some(1), oneAcross, None)),
                          White(CellData(None, oneAcross, None)),
                          White(CellData(None, oneAcross, None))],
                         Clues([Clue(1, clue)], []))
  {
    var entry := Guardian.GuardianEntry("1-across", 1, "1", clue, Guardian.Across, 3, ["1-across"],
                                        Guardian.Position(0, 0), Guardian.SeparatorLocations([]), "CAT");
    var oneAcross := ClueId(1, Direction.Across);
    var placements := ToInterimClue(entry, 3);
    assert placements == [(1, (oneAcross, None)), (2, (oneAcross, None)), (0, (oneAcross, Some(1)))];
    assert AllPlacements([entry], 3) == placements by {
      assert [entry][..0] == [];
      assert [] + placements == placements;
    }
    var groups := GroupByIndex(placements);
    assert CandidatesAt(placements, 0) == [(oneAcross, Some(1))] by {
      CandidatesAtSingle(placements, 0, 2);
    }
    assert CandidatesAt(placements, 1) == [(oneAcross, None)] by {
      CandidatesAtSingle(placements, 1, 0);
    }
    assert CandidatesAt(placements, 2) == [(oneAcross, None)] by {
      CandidatesAtSingle(placements, 2, 1);
    }
    assert Partition([entry]) == ([entry], []) by {
      assert [entry][..0] == [];
      assert Partition([entry][..0]) == ([], []);
      assert [] + [entry] == [entry];
    }
  }

  lemma PartitionSnoc(entries: seq<Entry>, last: Entry)
    ensures Partition(entries + [last]).0 ==
            Partition(entries).0 + (if last.direction.Across? then [last] else [])
    ensures Partition(entries + [last]).1 ==
            Partition(entries).1 + (if last.direction.Across? then [] else [last])
  {
    var all := entries + [last];
    assert all[..|all| - 1] == entries;
    assert all[|all| - 1] == last;
  }

  /** Splitting a longer list by direction extends the across part, in order. */
  lemma {:induction false} PartitionAppendAcross(a: seq<Entry>, b: seq<Entry>)
    ensures Partition(a + b).0 == Partition(a).0 + Partition(b).0
  {
    if b == [] {
      assert a + b == a;
    } else {
      var b', last := b[..|b| - 1], b[|b| - 1];
      assert b == b' + [last];
      assert a + b == (a + b') + [last];
      PartitionAppendAcross(a, b');
      PartitionSnoc(b', last);
      PartitionSnoc(a + b', last);
      var tail := if last.direction.Across? then [last] else [];
      assert (Partition(a).0 + Partition(b').0) + tail == Partition(a).0 + (Partition(b').0 + tail);
    }
  }

  /** Splitting a longer list by direction extends the down part, in order. */
  lemma {:induction false} PartitionAppendDown(a: seq<Entry>, b: seq<Entry>)
    ensures Partition(a + b).1 == Partition(a).1 + Partition(b).1
  {
    if b == [] {
      assert a + b == a;
    } else {
      var b', last := b[..|b| - 1], b[|b| - 1];
      assert b == b' + [last];
      assert a + b == (a + b') + [last];
      PartitionAppendDown(a, b');
      PartitionSnoc(b', last);
      PartitionSnoc(a + b', last);
      var tail := if last.direction.Across? then [] else [last];
      assert (Partition(a).1 + Partition(b').1) + tail == Partition(a).1 + (Partition(b').1 + tail);
    }
  }

  // ---------------------------------------------------------------------------
  // Crossword numbers from the series page
  // ---------------------------------------------------------------------------

  const CrosswordsUrl: string := "https://www.theguardian.com/crosswords/"

  /** The prefix of every link to a crossword of `series`. */
  function SeriesUrl(series: string): (url: string)
    ensures IsPrefix(CrosswordsUrl, url) && url[|CrosswordsUrl|..] == series
  {
    CrosswordsUrl + series
  }

  /** `s.replace(pat, "")`: every non-overlapping occurrence of `pat`, left to right, deleted. */
  function RemoveAll(s: string, pat: string): (r: string)
    ensures |r| <= |s|
    decreases |s|
  {
    if pat == [] || |s| < |pat| then s
    else if s[..|pat|] == pat then RemoveAll(s[|pat|..], pat)
    else [s[0]] + RemoveAll(s[1..], pat)
  }

  /** The number a kept link denotes: the link with the series URL and every '/' removed, parsed. */
  function HrefNumber(href: string, seriesUrl: string): (r: Result<int, ParseInt.IntErrorKind>)
    ensures r.Ok? ==> ParseInt.I64Min <= r.value <= ParseInt.I64Max
  {
    ParseInt.ParseI64(RemoveAll(RemoveAll(href, seriesUrl), "/"))
  }

  /** The links that are present and start with the series URL, in page order. */
  function KeptHrefs(hrefs: seq<Option<string>>, seriesUrl: string): (kept: seq<string>)
    ensures |kept| <= |hrefs|
  {
    if hrefs == [] then []
    else
      (if hrefs[0].Some? && IsPrefix(seriesUrl, hrefs[0].value) then [hrefs[0].value] else [])
      + KeptHrefs(hrefs[1..], seriesUrl)
  }

  /**
   * The kept links are the page's present links that start with the series
   * URL: each kept link is one of them, and each of them is kept.
   */
  lemma {:induction false} KeptHrefsMeaning(hrefs: seq<Option<string>>, seriesUrl: string)
    ensures forall h :: h in KeptHrefs(hrefs, seriesUrl) <==> Some(h) in hrefs && IsPrefix(seriesUrl, h)
  {
    if hrefs != [] {
      KeptHrefsMeaning(hrefs[1..], seriesUrl);
      assert hrefs == [hrefs[0]] + hrefs[1..];
    }
  }

  /**
   * The iterator chain of `get_recent_crossword_nos`: flatten, filter, parse,
   * collected into a `Result` that stops at the first parse error.
   */
  function CollectNumbers(hrefs: seq<Option<string>>, seriesUrl: string): (r: Result<seq<int>, ParseInt.IntErrorKind>)
    ensures r.Ok? ==> |r.value| == |KeptHrefs(hrefs, seriesUrl)|
    ensures r.Ok? ==> forall i :: 0 <= i < |r.value| ==> ParseInt.I64Min <= r.value[i] <= ParseInt.I64Max
  {
    if hrefs == [] then Ok([])
    else if hrefs[0].Some? && IsPrefix(seriesUrl, hrefs[0].value) then
      match HrefNumber(hrefs[0].value, seriesUrl)
      case Err(kind) => Err(kind)
      case Ok(n) =>
        match CollectNumbers(hrefs[1..], seriesUrl)
        case Err(kind) => Err(kind)
        case Ok(ns) => Ok([n] + ns)
    else CollectNumbers(hrefs[1..], seriesUrl)
  }

  /** Every link in `kept` before index `i` parses. */
  ghost predicate ParsesBefore(kept: seq<string>, seriesUrl: string, i: int) {
    forall j :: 0 <= j < i && j < |kept| ==> HrefNumber(kept[j], seriesUrl).Ok?
  }

  /**
   * The collected numbers are those of the kept links, one per link in page
   * order; an error is the error of the first kept link that does not parse.
   */
  lemma {:induction false} CollectNumbersMeaning(hrefs: seq<Option<string>>, seriesUrl: string)
    ensures var kept, r := KeptHrefs(hrefs, seriesUrl), CollectNumbers(hrefs, seriesUrl);
            r.Ok? ==> |r.value| == |kept| &&
                      forall i :: 0 <= i < |kept| ==> HrefNumber(kept[i], seriesUrl) == Ok(r.value[i])
    ensures var kept, r := KeptHrefs(hrefs, seriesUrl), CollectNumbers(hrefs, seriesUrl);
            r.Err? ==> exists i :: 0 <= i < |kept| && HrefNumber(kept[i], seriesUrl) == Err(r.error) &&
                                   ParsesBefore(kept, seriesUrl, i)
  {
    if hrefs != [] {
      var rest := hrefs[1..];
      CollectNumbersMeaning(rest, seriesUrl);
      var keptRest := KeptHrefs(rest, seriesUrl);
      if hrefs[0].Some? && IsPrefix(seriesUrl, hrefs[0].value) {
        var h := hrefs[0].value;
        var kept := [h] + keptRest;
        assert KeptHrefs(hrefs, seriesUrl) == kept;
        match HrefNumber(h, seriesUrl)
        case Err(kind) =>
          assert CollectNumbers(hrefs, seriesUrl) == Err(kind);
          assert kept[0] == h;
        case Ok(n) =>
          match CollectNumbers(rest, seriesUrl)
          case Err(kind) =>
            assert CollectNumbers(hrefs, seriesUrl) == Err(kind);
            var i :| 0 <= i < |keptRest| && HrefNumber(keptRest[i], seriesUrl) == Err(kind) &&
                     ParsesBefore(keptRest, seriesUrl, i);
            assert kept[i + 1] == keptRest[i];
            forall j | 0 <= j < i + 1 && j < |kept| ensures HrefNumber(kept[j], seriesUrl).Ok? {
              if j > 0 {
                assert kept[j] == keptRest[j - 1];
              }
            }
          case Ok(ns) =>
            assert CollectNumbers(hrefs, seriesUrl) == Ok([n] + ns);
            forall i | 0 <= i < |kept| ensures HrefNumber(kept[i], seriesUrl) == Ok(([n] + ns)[i]) {
              if i > 0 {
                assert kept[i] == keptRest[i - 1];
              }
            }
      } else {
        assert KeptHrefs(hrefs, seriesUrl) == keptRest;
        assert CollectNumbers(hrefs, seriesUrl) == CollectNumbers(rest, seriesUrl);
      }
    }
  }

  /** `get_recent_crossword_nos` after the page is fetched: the parse error becomes an internal error. */
  function RecentCrosswordNumbers(hrefs: seq<Option<string>>, series: string): (r: Result<seq<int>, AppError>)
    ensures var kept := KeptHrefs(hrefs, SeriesUrl(series));
            r.Ok? <==> forall i :: 0 <= i < |kept| ==> HrefNumber(kept[i], SeriesUrl(series)).Ok?
    ensures var kept := KeptHrefs(hrefs, SeriesUrl(series));
            r.Ok? ==> |r.value| == |kept| &&
                      forall i :: 0 <= i < |kept| ==> HrefNumber(kept[i], SeriesUrl(series)) == Ok(r.value[i])
    ensures var url := SeriesUrl(series);
            var kept := KeptHrefs(hrefs, url);
            r.Err? ==> exists i :: 0 <= i < |kept| && ParsesBefore(kept, url, i) && HrefNumber(kept[i], url).Err?
                                   && r.error == InternalServerError(ParseInt.Describe(HrefNumber(kept[i], url).error))
  {
    CollectNumbersMeaning(hrefs, SeriesUrl(series));
    match CollectNumbers(hrefs, SeriesUrl(series))
    case Ok(numbers) => Ok(numbers)
    case Err(kind) => Err(InternalServerError(ParseInt.Describe(kind)))
  }

  lemma {:induction false} RemoveAllAbsent(s: string, pat: string, c: char)
    requires c in pat && c !in s
    ensures RemoveAll(s, pat) == s
  {
    if |s| >= |pat| {
      assert s[..|pat|] != pat by {
        var i :| 0 <= i < |pat| && pat[i] == c;
        assert s[i] != c;
      }
      RemoveAllAbsent(s[1..], pat, c);
      assert [s[0]] + s[1..] == s;
    }
  }

  /** Removing a one-character pattern leaves none of that character. */
  lemma {:induction false} RemoveAllChar(s: string, c: char)
    ensures c !in RemoveAll(s, [c])
  {
    if |s| >= 1 {
      RemoveAllChar(s[1..], c);
    }
  }

  /** A link to crossword `n` of the series, as the page writes it, yields exactly `n`. */
  lemma HrefRoundTrip(series: string, n: nat)
    requires n <= ParseInt.I64Max
    ensures RecentCrosswordNumbers([Some(SeriesUrl(series) + "/" + ParseInt.Decimal(n))], series) == Ok([n])
  {
    var url := SeriesUrl(series);
    var digits := ParseInt.Decimal(n);
    var href := url + "/" + digits;
    assert IsPrefix(url, href);
    assert KeptHrefs([Some(href)], url) == [href];
    assert href[|url|..] == "/" + digits;
    assert 'h' in url by { assert url[0] == 'h'; }
    assert 'h' !in "/" + digits by {
      forall i | 0 <= i < |digits| ensures digits[i] != 'h' { }
    }
    RemoveAllAbsent("/" + digits, url, 'h');
    assert RemoveAll(href, url) == "/" + digits;
    assert ("/" + digits)[1..] == digits;
    assert '/' !in digits by {
      forall i | 0 <= i < |digits| ensures digits[i] != '/' { }
    }
    RemoveAllAbsent(digits, "/", '/');
    assert RemoveAll("/" + digits, "/") == digits;
    ParseInt.ParseDecimal(n);
    CollectSingle(href, url);
  }

  lemma CollectSingle(href: string, seriesUrl: string)
    requires IsPrefix(seriesUrl, href) && HrefNumber(href, seriesUrl).Ok?
    ensures CollectNumbers([Some(href)], seriesUrl) == Ok([HrefNumber(href, seriesUrl).value])
  {
    var hrefs := [Some(href)];
    assert hrefs[1..] == [];
    assert CollectNumbers(hrefs[1..], seriesUrl) == Ok([]);
    assert hrefs[0].Some? && IsPrefix(seriesUrl, hrefs[0].value);
    var n := HrefNumber(href, seriesUrl).value;
    assert HrefNumber(hrefs[0].value, seriesUrl) == Ok(n);
    assert [n] + [] == [n];
  }

  /** The `filter` of `update_crosswords`: the recent numbers not yet stored, in page order. */
  function NewCrosswordNumbers(recent: seq<int>, existing: seq<int>): (r: seq<int>)
    ensures forall n :: n in r <==> n in recent && n !in existing
    ensures |r| <= |recent|
  {
    if recent == [] then []
    else (if recent[0] in existing then [] else [recent[0]]) + NewCrosswordNumbers(recent[1..], existing)
  }

  lemma {:induction false} NoNewWhenAllStored(recent: seq<int>, existing: seq<int>)
    requires forall i :: 0 <= i < |recent| ==> recent[i] in existing
    ensures NewCrosswordNumbers(recent, existing) == []
  {
    if recent != [] {
      NoNewWhenAllStored(recent[1..], existing);
    }
  }

  /** Once the new numbers are stored, a second update finds nothing new to import. */
  lemma NothingNewAfterStoring(recent: seq<int>, existing: seq<int>)
    ensures NewCrosswordNumbers(recent, existing + NewCrosswordNumbers(recent, existing)) == []
  {
    var added := NewCrosswordNumbers(recent, existing);
    forall i | 0 <= i < |recent| ensures recent[i] in existing + added {
      assert recent[i] in recent;
    }
    NoNewWhenAllStored(recent, existing + added);
  }
}
