/**
 * The board lifecycle: creating a board from a validated initial grid, and
 * advancing a stored board by one step, by N steps, or until it reaches a
 * single-generation fixed point, reading and writing through a repository.
 */
module Lifecycle {
  import opened Grids
  import opened Engine

  datatype Option<T> = None | Some(value: T)

  /** The failures the service reports, each with its message. */
  datatype Error = BoardEmpty | NotRectangular | BoardNotFound | InvalidSteps | NoFinalState(maxAttempts: int)

  datatype Result<T> = Success(value: T) | Failure(error: Error)

  /** Identifies a board; the service draws a fresh one for each new board. */
  type BoardId = nat

  /**
   * What a board's stored state deserialises to: a grid, or `None` for a
   * stored document that reads back as null.
   */
  type Snapshot = Option<Grid>

  /** One call into the repository that changes what it holds. */
  datatype Write = Added(id: BoardId, state: Snapshot) | Updated(id: BoardId, state: Snapshot)

  function NatToString(n: nat): string
    decreases n
  {
    var digit := ['0' + (n % 10) as char];
    if n < 10 then digit else NatToString(n / 10) + digit
  }

  function IntToString(n: int): string {
    if n < 0 then "-" + NatToString(-n) else NatToString(n)
  }

  function Message(e: Error): string {
    match e
    case BoardEmpty => "Board is empty"
    case NotRectangular => "Board must be rectangular"
    case BoardNotFound => "Board not found."
    case InvalidSteps => "Steps must be at least 1."
    case NoFinalState(maxAttempts) => "Final state not reached after " + IntToString(maxAttempts) + " attempts."
  }

  /** Each failure's text, as the service reports it; the attempts message spells out the limit in decimal. */
  lemma Messages()
    ensures Message(BoardEmpty) == "Board is empty"
    ensures Message(NotRectangular) == "Board must be rectangular"
    ensures Message(BoardNotFound) == "Board not found."
    ensures Message(InvalidSteps) == "Steps must be at least 1."
    ensures Message(NoFinalState(1000)) == "Final state not reached after 1000 attempts."
  {
    DefaultLimitText();
  }

  /** The default limit of 1000 attempts prints as its four decimal digits. */
  lemma DefaultLimitText()
    ensures IntToString(1000) == "1000"
  {
    assert NatToString(1) == "1";
    assert NatToString(10) == NatToString(1) + "0";
    assert NatToString(100) == NatToString(10) + "0";
    assert NatToString(1000) == NatToString(100) + "0";
  }

  /** The grid stored for `id`, or `None` when the id is unknown or its state reads back as null. */
  function Stored(boards: map<BoardId, Snapshot>, id: BoardId): Snapshot {
    if id in boards then boards[id] else None
  }

  /** Every stored grid is one that board creation would accept. */
  ghost predicate ValidStore(boards: map<BoardId, Snapshot>) {
    forall id :: id in boards && boards[id].Some? ==> IsBoard(boards[id].value)
  }

  lemma StoreUpdate(boards: map<BoardId, Snapshot>, id: BoardId, g: Grid)
    requires ValidStore(boards) && IsBoard(g)
    ensures ValidStore(boards[id := Some(g)])
  {
  }

  /** The board store, keyed by id; `writes` records every add and update in order. */
  class BoardRepository {
    var boards: map<BoardId, Snapshot>
    ghost var writes: seq<Write>

    ghost predicate Valid()
      reads this
    {
      ValidStore(boards)
    }

    constructor (initial: map<BoardId, Snapshot>)
      ensures boards == initial && writes == []
      ensures Valid() <==> ValidStore(initial)
    {
      boards := initial;
      writes := [];
    }

    /** Inserts a new board; the store refuses a duplicate id, so callers pass a fresh one. */
    method AddBoard(id: BoardId, state: Snapshot)
      requires id !in boards
      modifies this
      ensures boards == old(boards)[id := state]
      ensures writes == old(writes) + [Added(id, state)]
      ensures old(Valid()) && (state.Some? ==> IsBoard(state.value)) ==> Valid()
    {
      boards := boards[id := state];
      writes := writes + [Added(id, state)];
    }

    method GetBoardById(id: BoardId) returns (found: Option<Snapshot>)
      ensures found == if id in boards then Some(boards[id]) else None
    {
      found := if id in boards then Some(boards[id]) else None;
    }

    /** Replaces the stored state of an existing board; an unknown id matches nothing. */
    method UpdateBoard(id: BoardId, state: Snapshot)
      modifies this
      ensures boards == if id in old(boards) then old(boards)[id := state] else old(boards)
      ensures writes == old(writes) + [Updated(id, state)]
      ensures old(Valid()) && (state.Some? ==> IsBoard(state.value)) ==> Valid()
    {
      if id in boards {
        boards := boards[id := state];
      }
      writes := writes + [Updated(id, state)];
    }
  }

  /** Picks an id no stored board uses. */
  method FreshId(used: set<BoardId>) returns (id: BoardId)
    ensures id !in used
  {
    id := 0;
    var rest := used;
    while rest != {}
      invariant rest <= used
      invariant forall k :: k in used && k !in rest ==> k < id
      decreases rest
    {
      var k :| k in rest;
      if k >= id {
        id := k + 1;
      }
      rest := rest - {k};
    }
  }

  /** Reads a stored state back into a freshly allocated jagged array; null stays null. */
  method Deserialize(state: Snapshot) returns (board: array?<array<bool>>)
    ensures board == null <==> state.None?
    ensures board != null ==> fresh(board) && Cells(board) == state.value
  {
    if state.None? {
      return null;
    }
    var g := state.value;
    var placeholder := new bool[0];
    var a := new array<bool>[|g|](_ => placeholder);
    for i := 0 to |g|
      invariant forall k :: 0 <= k < i ==> a[k][..] == g[k]
    {
      a[i] := new bool[|g[i]|](j requires 0 <= j < |g[i]| => g[i][j]);
    }
    assert Cells(a) == g;
    board := a;
  }

  /** The board-lifecycle service; its only state is the repository it was given. */
  class GameService {
    const repository: BoardRepository

    constructor (repository: BoardRepository)
      ensures this.repository == repository
    {
      this.repository := repository;
    }

    /**
     * Validates the initial grid (present, at least one row, a non-empty first
     * row, every row as long as the first) and stores it under a fresh id.
     */
    method CreateBoard(initialState: array?<array<bool>>) returns (result: Result<BoardId>)
      requires repository.Valid()
      modifies repository
      ensures repository.Valid()
      ensures result == Failure(BoardEmpty) <==>
        initialState == null || initialState.Length == 0 || initialState[0].Length == 0
      ensures result == Failure(NotRectangular) <==>
        initialState != null && initialState.Length > 0 && initialState[0].Length > 0 && !Rectangular(Cells(initialState))
      ensures result.Success? <==> initialState != null && IsBoard(Cells(initialState))
      ensures result.Failure? ==> unchanged(repository)
      ensures result.Success? ==>
        && result.value !in old(repository.boards)
        && repository.boards == old(repository.boards)[result.value := Some(Cells(initialState))]
        && repository.writes == old(repository.writes) + [Added(result.value, Some(Cells(initialState)))]
    {
      if initialState == null || initialState.Length == 0 || initialState[0].Length == 0 {
        return Failure(BoardEmpty);
      }
      var cols := initialState[0].Length;
      for i := 0 to initialState.Length
        invariant forall k :: 0 <= k < i ==> initialState[k].Length == cols
      {
        if initialState[i].Length != cols {
          return Failure(NotRectangular);
        }
      }
      var id := FreshId(repository.boards.Keys);
      var state := Some(Cells(initialState));
      repository.AddBoard(id, state);
      return Success(id);
    }

    /** One transition of the stored board, written back and returned. */
    method GetNextState(boardId: BoardId) returns (result: Result<array<array<bool>>>)
      requires repository.Valid()
      modifies repository
      ensures repository.Valid()
      ensures result.Failure? <==> Stored(old(repository.boards), boardId).None?
      ensures result.Failure? ==> result.error == BoardNotFound && unchanged(repository)
      ensures result.Success? ==>
        && fresh(result.value)
        && Cells(result.value) == NextGeneration(Stored(old(repository.boards), boardId).value)
        && repository.boards == old(repository.boards)[boardId := Some(Cells(result.value))]
        && repository.writes == old(repository.writes) + [Updated(boardId, Some(Cells(result.value)))]
    {
      var board := repository.GetBoardById(boardId);
      if board.None? {
        return Failure(BoardNotFound);
      }
      var currentState := Deserialize(board.value);
      if currentState == null {
        return Failure(BoardNotFound);
      }
      var nextState := GetNextGeneration(currentState);
      var persisted := Some(Cells(nextState));
      StoreUpdate(repository.boards, boardId, persisted.value);
      repository.UpdateBoard(boardId, persisted);
      assert Cells(nextState) == persisted.value;
      return Success(nextState);
    }

    /**
     * Exactly `steps` transitions, with no early exit, then one write. The
     * step count is checked before the board is looked up.
     */
    method GetStateAfterSteps(boardId: BoardId, steps: int) returns (result: Result<array<array<bool>>>)
      requires repository.Valid()
      modifies repository
      ensures repository.Valid()
      ensures steps < 1 ==> result == Failure(InvalidSteps)
      ensures steps >= 1 ==> (result.Failure? <==> Stored(old(repository.boards), boardId).None?)
      ensures steps >= 1 && result.Failure? ==> result.error == BoardNotFound
      ensures result.Failure? ==> unchanged(repository)
      ensures result.Success? ==>
        && steps >= 1
        && Cells(result.value) == Iterate(Stored(old(repository.boards), boardId).value, steps)
        && repository.boards == old(repository.boards)[boardId := Some(Cells(result.value))]
        && repository.writes == old(repository.writes) + [Updated(boardId, Some(Cells(result.value)))]
    {
      if steps < 1 {
        return Failure(InvalidSteps);
      }
      var board := repository.GetBoardById(boardId);
      if board.None? {
        return Failure(BoardNotFound);
      }
      var currentState := Deserialize(board.value);
      if currentState == null {
        return Failure(BoardNotFound);
      }
      ghost var g := board.value.value;
      assert IsBoard(g);
      var newState: array<array<bool>> := currentState;
      for i := 0 to steps
        invariant Cells(newState) == Iterate(g, i)
        invariant unchanged(repository)
      {
        newState := GetNextGeneration(newState);
      }
      assert IsBoard(Cells(newState));
      var persisted := Some(Cells(newState));
      StoreUpdate(repository.boards, boardId, persisted.value);
      repository.UpdateBoard(boardId, persisted);
      assert Cells(newState) == persisted.value;
      return Success(newState);
    }

    /**
     * Steps the board until a generation equals the one before it, trying at
     * most `maxAttempts` transitions; writes only when such a generation is found.
     */
    method GetFinalState(boardId: BoardId, maxAttempts: int) returns (result: Result<array<array<bool>>>)
      requires repository.Valid()
      modifies repository
      ensures repository.Valid()
      ensures Stored(old(repository.boards), boardId).None? ==> result == Failure(BoardNotFound)
      ensures Stored(old(repository.boards), boardId).Some? ==>
        var g := Stored(old(repository.boards), boardId).value;
        && (result.Failure? <==> forall k :: 0 <= k < maxAttempts ==> !IsFixedPoint(Iterate(g, k)))
        && (result.Failure? ==> result.error == NoFinalState(maxAttempts))
        && (result.Success? ==> exists k: nat :: FirstFixedPointAt(g, k, maxAttempts) && Cells(result.value) == Iterate(g, k + 1))
      ensures result.Failure? ==> unchanged(repository)
      ensures result.Success? ==>
        && repository.boards == old(repository.boards)[boardId := Some(Cells(result.value))]
        && repository.writes == old(repository.writes) + [Updated(boardId, Some(Cells(result.value)))]
    {
      var board := repository.GetBoardById(boardId);
      if board.None? {
        return Failure(BoardNotFound);
      }
      var loaded := Deserialize(board.value);
      if loaded == null {
        return Failure(BoardNotFound);
      }
      ghost var g := board.value.value;
      assert IsBoard(g);
      var found, at := SearchFinalState(loaded, g, maxAttempts);
      UnsettledMeans(g, maxAttempts);
      if found == null {
        return Failure(NoFinalState(maxAttempts));
      }
      assert IsBoard(Cells(found));
      var persisted := Some(Cells(found));
      StoreUpdate(repository.boards, boardId, persisted.value);
      repository.UpdateBoard(boardId, persisted);
      assert Cells(found) == persisted.value;
      assert FirstFixedPointAt(g, at, maxAttempts) && Cells(found) == Iterate(g, at + 1);
      return Success(found);
    }
  }

  /**
   * The loop of `GetFinalState`: steps from `start` until a generation equals
   * the one before it, at most `maxAttempts` times, and returns that
   * generation, or null when every attempt changed the board.
   */
  method SearchFinalState(start: array<array<bool>>, ghost g: Grid, maxAttempts: int) returns (found: array?<array<bool>>, ghost at: nat)
    requires IsBoard(g) && Cells(start) == g
    ensures found == null <==> Unsettled(g, maxAttempts)
    ensures found != null ==> FirstFixedPointAt(g, at, maxAttempts) && Cells(found) == Iterate(g, at + 1)
  {
    var currentState := start;
    var attempts := 0;
    while attempts < maxAttempts
      invariant 0 <= attempts && (attempts <= maxAttempts || attempts == 0)
      invariant Cells(currentState) == Iterate(g, attempts)
      invariant Unsettled(g, attempts)
      decreases maxAttempts - attempts
    {
      ghost var current := Iterate(g, attempts);
      var nextState, equal := StepAndCompare(currentState, current);
      Attempt(g, attempts, maxAttempts, equal);
      if equal {
        return nextState, attempts;
      }
      currentState := nextState;
      attempts := attempts + 1;
    }
    return null, 0;
  }

  /**
   * The body of the search loop: the next generation of `currentState`, and
   * whether every cell of it equals the cell before.
   */
  method StepAndCompare(currentState: array<array<bool>>, ghost current: Grid) returns (nextState: array<array<bool>>, equal: bool)
    requires Rectangular(current) && Cells(currentState) == current
    ensures Cells(nextState) == NextGeneration(current)
    ensures equal <==> IsFixedPoint(current)
  {
    nextState := GetNextGeneration(currentState);
    ghost var next := Cells(nextState);
    equal := AreBoardsEqual(currentState, nextState);
    assert Cells(currentState) == current && Cells(nextState) == next;
    SameCellsIsEquality(current, next);
  }

  /** None of the first `n` generations of `g` maps to itself. */
  ghost predicate Unsettled(g: Grid, n: int)
    requires Rectangular(g)
    decreases n
  {
    n <= 0 || (Unsettled(g, n - 1) && !IsFixedPoint(Iterate(g, n - 1)))
  }

  lemma {:induction false} UnsettledMeans(g: Grid, n: int)
    requires Rectangular(g)
    ensures Unsettled(g, n) <==> forall k :: 0 <= k < n ==> !IsFixedPoint(Iterate(g, k))
    decreases n
  {
    if n > 0 {
      UnsettledMeans(g, n - 1);
      if Unsettled(g, n) {
        forall k | 0 <= k < n
          ensures !IsFixedPoint(Iterate(g, k))
        {
          if k < n - 1 {
            assert !IsFixedPoint(Iterate(g, k));
          }
        }
      } else if IsFixedPoint(Iterate(g, n - 1)) {
        FixedPointWitness(g, n, n - 1);
      } else {
        assert !Unsettled(g, n - 1);
      }
    }
  }

  lemma FixedPointWitness(g: Grid, n: int, k: nat)
    requires Rectangular(g) && k < n && IsFixedPoint(Iterate(g, k))
    ensures !(forall j :: 0 <= j < n ==> !IsFixedPoint(Iterate(g, j)))
  {
  }

  /** Generation `k` is the first fixed point of `g`, and it lies within the first `maxAttempts` transitions. */
  ghost predicate FirstFixedPointAt(g: Grid, k: nat, maxAttempts: int)
    requires Rectangular(g)
  {
    k < maxAttempts && IsFixedPoint(Iterate(g, k)) && Unsettled(g, k)
  }

  /** Once a fixed point has been reached, no longer prefix of generations is unsettled. */
  lemma {:induction false} SettledStays(g: Grid, k: nat, n: int)
    requires Rectangular(g) && k < n && IsFixedPoint(Iterate(g, k))
    ensures !Unsettled(g, n)
    decreases n
  {
    if n - 1 > k {
      SettledStays(g, k, n - 1);
    }
  }

  /**
   * One attempt of the search, given whether generation `k` maps to itself:
   * either it is the first fixed point, or one more generation is unsettled.
   */
  lemma Attempt(g: Grid, k: nat, maxAttempts: int, equal: bool)
    requires Rectangular(g) && k < maxAttempts && Unsettled(g, k)
    requires equal <==> IsFixedPoint(Iterate(g, k))
    ensures equal ==> FirstFixedPointAt(g, k, maxAttempts) && !Unsettled(g, maxAttempts)
    ensures !equal ==> Unsettled(g, k + 1)
  {
    if equal {
      SettledStays(g, k, maxAttempts);
    }
  }
}
