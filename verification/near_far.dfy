/** nova/cells/filters/rax_near_far.py: place a build in the same cell as
    another instance ("near") or away from it ("far"). */
module NearFarFilter {
  import opened Wrappers
  import opened CellState
  import opened Strings
  import Seqs
  import CellsConfig

  const Sep: char := CellsConfig.PathSep

  /** `dest` names a cell strictly below the cell at `routingPath`. */
  predicate Below(dest: string, routingPath: string) {
    |routingPath| < |dest| && dest[..|routingPath|] == routingPath && dest[|routingPath|] == Sep
  }

  /** `CellRoutingInconsistency`: the destination does not lie on or below the
      current routing path. */
  datatype Inconsistency = Inconsistency(dest: string, routingPath: string)

  /** `cell_name_for_next_hop`: `Ok(None)` when the message has arrived, the
      name of the child to forward to otherwise. */
  function NextHop(dest: string, routingPath: string): (r: Result<Option<string>, Inconsistency>)
    ensures r == Ok(None) <==> dest == routingPath
    ensures r.Ok? && r.value.Some? ==> Sep !in r.value.value
  {
    if dest == routingPath then Ok(None)
    else
      var currentHops := Count(routingPath, Sep);
      var destHops := Count(dest, Sep);
      if destHops < currentHops then Err(Inconsistency(dest, routingPath))
      else
        var parts := Split(dest, Sep);
        JoinSplit(dest, Sep);
        assert destHops == currentHops ==> parts[..currentHops + 1] == parts;
        if Join(parts[..currentHops + 1], Sep) != routingPath then Err(Inconsistency(dest, routingPath))
        else Ok(Some(parts[currentHops + 1]))
  }

  /** Below the routing path, the next hop is the first component of the rest
      of the destination. */
  lemma NextHopBelow(routingPath: string, rest: string)
    ensures NextHop(routingPath + [Sep] + rest, routingPath) == Ok(Some(Split(rest, Sep)[0]))
  {
    var dest := routingPath + [Sep] + rest;
    var cur := Count(routingPath, Sep);
    CountConcat(routingPath, [Sep], Sep);
    CountConcat(routingPath + [Sep], rest, Sep);
    assert Count([Sep], Sep) == 1;
    SplitAround(routingPath, rest, Sep);
    var parts := Split(dest, Sep);
    assert parts[..cur + 1] == Split(routingPath, Sep);
    JoinSplit(routingPath, Sep);
    assert parts[cur + 1] == Split(rest, Sep)[0];
  }

  /** `NextHopBelow` phrased for a destination tested with `Below`. */
  lemma NextHopOfBelow(dest: string, routingPath: string)
    ensures Below(dest, routingPath) ==>
              NextHop(dest, routingPath) == Ok(Some(Split(dest[|routingPath| + 1..], Sep)[0]))
  {
    if Below(dest, routingPath) {
      assert dest == routingPath + [Sep] + dest[|routingPath| + 1..];
      NextHopBelow(routingPath, dest[|routingPath| + 1..]);
    }
  }

  /** A next hop is only ever produced for a destination below the routing
      path, and it is the first component of the remainder. */
  lemma NextHopSound(dest: string, routingPath: string, hop: string)
    requires NextHop(dest, routingPath) == Ok(Some(hop))
    ensures Below(dest, routingPath)
    ensures hop == Split(dest[|routingPath| + 1..], Sep)[0]
  {
    var k := Count(routingPath, Sep) + 1;
    var parts := Split(dest, Sep);
    JoinSplit(dest, Sep);
    assert Count(dest, Sep) + 1 == |parts| && k <= |parts|;
    assert k < |parts| by {
      assert parts[..|parts|] == parts;
    }
    assert Join(parts[..k], Sep) == routingPath && hop == parts[k];
    assert parts == parts[..k] + parts[k..];
    DestAfterPath(dest, routingPath, parts[..k], parts[k..]);
    var rest := Join(parts[k..], Sep);
    BelowOf(dest, routingPath, rest);
    SplitJoin(parts[k..], Sep);
  }

  /** A destination whose first components spell the routing path is the
      routing path, a separator and the remaining components. */
  lemma DestAfterPath(dest: string, routingPath: string, a: seq<string>, b: seq<string>)
    requires |a| > 0 && |b| > 0 && Join(a + b, Sep) == dest && Join(a, Sep) == routingPath
    ensures dest == routingPath + [Sep] + Join(b, Sep)
  {
    JoinConcat(a, b, Sep);
  }

  lemma BelowOf(dest: string, routingPath: string, rest: string)
    requires dest == routingPath + [Sep] + rest
    ensures Below(dest, routingPath) && dest[|routingPath| + 1..] == rest
  {
    assert dest[..|routingPath|] == routingPath;
  }

  /** The routing is inconsistent exactly when the destination is neither the
      current cell nor below it. */
  lemma NextHopInconsistentIff(dest: string, routingPath: string)
    ensures NextHop(dest, routingPath).Err? <==> dest != routingPath && !Below(dest, routingPath)
  {
    NextHopOfBelow(dest, routingPath);
    var r := NextHop(dest, routingPath);
    if r.Ok? && r.value.Some? {
      NextHopSound(dest, routingPath, r.value.value);
    }
  }

  /** What the filter sees of the cell it runs in. */
  datatype Env = Env(
    routingPath: string,
    instances: map<string, Instance>,
    myCell: Cell,
    childCells: map<string, Cell>)

  /** An instance row, reduced to its `cell_name` column. */
  datatype Instance = Instance(cellName: Option<string>)

  /** `_find_cell`: the candidate that routes towards `cellName`, if any. */
  function FindCell(cellName: string, env: Env): (r: Option<Cell>)
    ensures cellName == env.routingPath ==> r == Some(env.myCell)
    ensures cellName != env.routingPath && !Below(cellName, env.routingPath) ==> r == None
    ensures Below(cellName, env.routingPath) ==>
              var hop := Split(cellName[|env.routingPath| + 1..], Sep)[0];
              r == if hop == "" then Some(env.myCell)
                   else if hop in env.childCells then Some(env.childCells[hop]) else None
  {
    NextHopInconsistentIff(cellName, env.routingPath);
    NextHopOfBelow(cellName, env.routingPath);
    match NextHop(cellName, env.routingPath)
    case Err(_) => None
    case Ok(None) => Some(env.myCell)
    case Ok(Some(hop)) =>
      if hop == "" then Some(env.myCell)
      else if hop in env.childCells then Some(env.childCells[hop]) else None
  }

  /** A direct child of the current cell is found among the child cells. */
  lemma FindChildCell(env: Env, child: string)
    requires Sep !in child && child != "" && child in env.childCells
    ensures FindCell(env.routingPath + [Sep] + child, env) == Some(env.childCells[child])
  {
    NextHopBelow(env.routingPath, child);
    Strings.SplitNoSeparator(child, Sep);
  }

  /** The errors the filter lets escape. */
  datatype FilterError =
    | InstanceNotFound(uuid: string, hint: string)   // CellsFilterError: no such instance
    | InstanceNotInCell(uuid: string, hint: string)  // CellsFilterError: instance has no cell_name
    | CellNotInCandidates(cell: Cell)                // ValueError from list.remove
    | EmptyDczone                                    // IndexError indexing an empty DCZONE list

  /** `_get_cell_name`: the cell of the instance a hint refers to. */
  function GetCellName(instances: map<string, Instance>, uuid: string, hint: string): (r: Result<string, FilterError>)
    ensures uuid !in instances ==> r == Err(InstanceNotFound(uuid, hint))
    ensures uuid in instances && instances[uuid].cellName.GetOr("") == "" ==> r == Err(InstanceNotInCell(uuid, hint))
    ensures r.Ok? ==> uuid in instances && instances[uuid].cellName == Some(r.value) && r.value != ""
  {
    if uuid !in instances then Err(InstanceNotFound(uuid, hint))
    else match instances[uuid].cellName
      case None => Err(InstanceNotInCell(uuid, hint))
      case Some(name) => if name == "" then Err(InstanceNotInCell(uuid, hint)) else Ok(name)
  }

  /** `hints.get(key)` read for truthiness: an absent key and an empty value
      both read as `""`. */
  function Hint(hints: map<string, string>, key: string): string {
    if key in hints then hints[key] else ""
  }

  /** A cell advertises a non-empty DCZONE list. */
  predicate HasDczone(cell: Cell) {
    "DCZONE" in cell.capabilities && |cell.capabilities["DCZONE"]| > 0
  }

  /** The keys `_standardize_scheduler_hints` removes or writes. */
  predicate Rewritten(key: string) {
    key == "near" || key == "far" || key == "same_cell" || key == "different_cell" || key == "different_dczone"
  }

  /** `a` and `b` agree on `key`: both lack it, or both map it to one value. */
  predicate SameEntry(a: map<string, string>, b: map<string, string>, key: string) {
    (key in a <==> key in b) && (key in a ==> a[key] == b[key])
  }

  /** The hint `key` is falsy, or names an instance that has a cell. */
  predicate Resolves(hints: map<string, string>, key: string, env: Env) {
    Hint(hints, key) == "" || GetCellName(env.instances, hints[key], key).Ok?
  }

  /** `_standardize_scheduler_hints`: `near` becomes `same_cell`, `far` becomes
      `different_cell` and, when the far cell advertises one, `different_dczone`
      (the first entry of that cell's DCZONE list). A `near` that does not
      resolve fails before `far` is looked at. */
  function Standardize(hints: map<string, string>, env: Env): (r: Result<map<string, string>, FilterError>)
    ensures r.Ok? <==> Resolves(hints, "near", env) && Resolves(hints, "far", env)
    ensures !Resolves(hints, "near", env) ==> r == Err(GetCellName(env.instances, hints["near"], "near").error)
    ensures Resolves(hints, "near", env) && !Resolves(hints, "far", env) ==>
              r == Err(GetCellName(env.instances, hints["far"], "far").error)
    ensures r.Ok? ==> "near" !in r.value && "far" !in r.value
    ensures r.Ok? ==> forall key :: !Rewritten(key) ==> SameEntry(r.value, hints, key)
    ensures Hint(hints, "near") != "" && r.Ok? ==>
              "same_cell" in r.value && hints["near"] in env.instances
              && env.instances[hints["near"]].cellName == Some(r.value["same_cell"])
    ensures Hint(hints, "near") == "" && r.Ok? ==> SameEntry(r.value, hints, "same_cell")
    ensures Hint(hints, "near") == "" && Hint(hints, "far") == "" ==> r == Ok(hints - {"near"} - {"far"})
    ensures Hint(hints, "far") == "" && r.Ok? ==>
              SameEntry(r.value, hints, "different_cell") && SameEntry(r.value, hints, "different_dczone")
    ensures Hint(hints, "far") != "" && r.Ok? ==>
              "different_cell" in r.value && hints["far"] in env.instances
              && env.instances[hints["far"]].cellName == Some(r.value["different_cell"])
    ensures Hint(hints, "far") != "" && r.Ok? ==>
              var cell := FindCell(r.value["different_cell"], env);
              if cell.Some? && HasDczone(cell.value)
              then "different_dczone" in r.value && r.value["different_dczone"] == cell.value.capabilities["DCZONE"][0]
              else SameEntry(r.value, hints, "different_dczone")
  {
    var near := Hint(hints, "near");
    var h1 := hints - {"near"};
    var nearStep: Result<map<string, string>, FilterError> :=
      if near == "" then Ok(h1)
      else match GetCellName(env.instances, near, "near")
        case Err(e) => Err(e)
        case Ok(cn) => Ok(h1["same_cell" := cn]);
    match nearStep
    case Err(e) => Err(e)
    case Ok(h2) =>
      assert Hint(h2, "far") == Hint(hints, "far");
      var far := Hint(h2, "far");
      var h3 := h2 - {"far"};
      if far == "" then Ok(h3)
      else match GetCellName(env.instances, far, "far")
        case Err(e) => Err(e)
        case Ok(cn) =>
          var h4 := h3["different_cell" := cn];
          match FindCell(cn, env)
          case Some(cell) =>
            if HasDczone(cell) then Ok(h4["different_dczone" := cell.capabilities["DCZONE"][0]]) else Ok(h4)
          case None => Ok(h4)
  }

  /** What to do when the cell to avoid is not among the candidates. */
  datatype MissingCell = Raise | Ignore

  /** `c` is the candidate the `different_cell` step aims at: the cell that
      routes towards `different` when at most one hop is left. */
  predicate Avoids(different: string, env: Env, c: Cell) {
    different != "" && Count(different, Sep) - Count(env.routingPath, Sep) <= 1 && FindCell(different, env) == Some(c)
  }

  /** How many copies of `c` the `different_cell` step keeps: one fewer of
      the cell it aims at, all copies of every other cell. */
  function AvoidCount(c: Cell, cells: seq<Cell>, different: string, env: Env): nat {
    if Avoids(different, env, c) && multiset(cells)[c] > 0 then multiset(cells)[c] - 1 else multiset(cells)[c]
  }

  /** The `different_cell` step: drop the cell the far instance lives in once
      only one hop separates it from here. */
  function AvoidCell(missing: MissingCell, cells: seq<Cell>, different: string, env: Env): (r: Result<seq<Cell>, FilterError>)
    ensures r.Ok? ==> Seqs.IsSubsequence(r.value, cells)
    ensures r.Ok? ==> multiset(r.value) <= multiset(cells)
    ensures r.Ok? ==> forall c :: multiset(r.value)[c] == AvoidCount(c, cells, different, env)
    ensures r.Err? <==>
              missing == Raise && different != "" && Count(different, Sep) - Count(env.routingPath, Sep) <= 1
              && FindCell(different, env).Some? && FindCell(different, env).value !in cells
    ensures r.Ok? && different != "" && Count(different, Sep) - Count(env.routingPath, Sep) <= 1
              && FindCell(different, env).Some? && FindCell(different, env).value in cells ==>
              multiset(r.value) == multiset(cells) - multiset{FindCell(different, env).value}
    ensures (different == "" || Count(different, Sep) - Count(env.routingPath, Sep) > 1
              || FindCell(different, env).None?) ==> r == Ok(cells)
  {
    if different == "" then
      Seqs.SubsequenceRefl(cells);
      Ok(cells)
    else
      var hopsLeft := Count(different, Sep) - Count(env.routingPath, Sep);
      var cell := FindCell(different, env);
      if cell.Some? && hopsLeft <= 1 then
        if cell.value in cells then Ok(Seqs.RemoveFirst(cells, cell.value))
        else if missing == Raise then Err(CellNotInCandidates(cell.value))
        else
          Seqs.SubsequenceRefl(cells);
          Ok(cells)
      else
        Seqs.SubsequenceRefl(cells);
        Ok(cells)
  }

  /** The cell advertises `dczone` as the first entry of its DCZONE list. */
  predicate InDczone(cell: Cell, dczone: string) {
    HasDczone(cell) && cell.capabilities["DCZONE"][0] == dczone
  }

  /** Some candidate advertises an empty DCZONE list. */
  predicate SomeEmptyDczone(cells: seq<Cell>) {
    exists c :: c in cells && EmptyDczoneList(c)
  }

  /** The test the `different_dczone` loop keeps a cell by. */
  function OutsideDczone(dczone: string): Cell -> bool {
    (c: Cell) => !InDczone(c, dczone)
  }

  /** A cell whose DCZONE list is present but empty: indexing it raises. */
  predicate EmptyDczoneList(cell: Cell) {
    "DCZONE" in cell.capabilities && |cell.capabilities["DCZONE"]| == 0
  }

  /** The `different_dczone` step: keep the cells outside the far instance's
      DCZONE, in order. */
  function AvoidDczone(cells: seq<Cell>, dczone: string): (r: Result<seq<Cell>, FilterError>)
    ensures dczone == "" ==> r == Ok(cells)
    ensures r.Err? <==> dczone != "" && SomeEmptyDczone(cells)
    ensures r.Ok? ==> Seqs.IsSubsequence(r.value, cells)
    ensures r.Ok? && dczone != "" ==>
              forall c :: multiset(r.value)[c] == if InDczone(c, dczone) then 0 else multiset(cells)[c]
    ensures r.Ok? ==> multiset(r.value) <= multiset(cells)
  {
    if dczone == "" then
      Seqs.SubsequenceRefl(cells);
      Ok(cells)
    else if SomeEmptyDczone(cells) then Err(EmptyDczone)
    else Ok(Seqs.Filter(cells, OutsideDczone(dczone)))
  }

  /** What `filter_all` hands back. */
  datatype Outcome =
    | Candidates(cells: seq<Cell>)
      // `None`, after `schedule_run_instance(context, cellName, host_sched_kwargs)`
    | RoutedDirectly(cellName: string)

  /** The outcome together with the scheduler hints as the filter leaves them
      (the filter edits the caller's dictionary in place). */
  datatype Run = Run(outcome: Outcome, hints: map<string, string>)

  /** How many copies of `c` survive both narrowing steps: none of a cell in
      the avoided DCZONE, otherwise what the `different_cell` step keeps. */
  function KeptCount(c: Cell, cells: seq<Cell>, hints: map<string, string>, env: Env): nat {
    var dczone := Hint(hints, "different_dczone");
    if dczone != "" && InDczone(c, dczone) then 0 else AvoidCount(c, cells, Hint(hints, "different_cell"), env)
  }

  /** The cell the `different_cell` step aims at is not a candidate. */
  predicate TargetMissing(cells: seq<Cell>, hints: map<string, string>, env: Env) {
    var different := Hint(hints, "different_cell");
    different != "" && Count(different, Sep) - Count(env.routingPath, Sep) <= 1
    && FindCell(different, env).Some? && FindCell(different, env).value !in cells
  }

  /** A cell with an empty DCZONE list among fewer candidates is one among
      more. */
  lemma EmptyDczoneInSuperset(kept: seq<Cell>, cells: seq<Cell>)
    requires multiset(kept) <= multiset(cells)
    ensures SomeEmptyDczone(kept) ==> SomeEmptyDczone(cells)
  {
    if SomeEmptyDczone(kept) {
      var x :| x in kept && EmptyDczoneList(x);
      assert x in multiset(kept);
      assert x in cells;
    }
  }

  /** The `different_cell` and `different_dczone` steps, applied to the
      standardized hints once no `same_cell` is left. */
  function Narrow(missing: MissingCell, cells: seq<Cell>, hints: map<string, string>, env: Env): (r: Result<seq<Cell>, FilterError>)
    ensures r.Ok? ==> Seqs.IsSubsequence(r.value, cells)
    ensures r.Ok? ==> forall c :: multiset(r.value)[c] == KeptCount(c, cells, hints, env)
    ensures r.Ok? && Hint(hints, "different_dczone") != "" ==>
              forall c :: c in r.value ==> !InDczone(c, Hint(hints, "different_dczone"))
    ensures r.Err? && r.error.CellNotInCandidates? <==> missing == Raise && TargetMissing(cells, hints, env)
    ensures r.Err? ==> r.error.CellNotInCandidates? || r.error == EmptyDczone
    ensures r == Err(EmptyDczone) ==> Hint(hints, "different_dczone") != "" && SomeEmptyDczone(cells)
    ensures (&& !(missing == Raise && TargetMissing(cells, hints, env))
             && (Hint(hints, "different_dczone") == "" || !SomeEmptyDczone(cells)))
            ==> r.Ok?
    ensures r.Ok? ==> multiset(r.value) <= multiset(cells)
  {
    match AvoidCell(missing, cells, Hint(hints, "different_cell"), env)
    case Err(e) => Err(e)
    case Ok(kept) =>
      EmptyDczoneInSuperset(kept, cells);
      // `if not cells: return []` right after the removal
      if |kept| == 0 then Ok([])
      else
        var dczone := Hint(hints, "different_dczone");
        match AvoidDczone(kept, dczone)
        case Err(e) => Err(e)
        case Ok(out) =>
          Seqs.SubsequenceTrans(out, kept, cells);
          assert dczone != "" ==> forall c :: c in out ==> !InDczone(c, dczone) by {
            if dczone != "" {
              forall c | c in out ensures !InDczone(c, dczone) {
                assert multiset(out)[c] > 0;
              }
            }
          }
          Ok(out)
  }

  function FilterWith(missing: MissingCell, cells: seq<Cell>, hints: map<string, string>, env: Env): (r: Result<Run, FilterError>)
    ensures |hints| == 0 ==> r == Ok(Run(Candidates(cells), hints))
    ensures r.Ok? && r.value.outcome.Candidates? ==> Seqs.IsSubsequence(r.value.outcome.cells, cells)
    ensures r.Ok? && |hints| > 0 ==> "near" !in r.value.hints && "far" !in r.value.hints && "same_cell" !in r.value.hints
    ensures r.Ok? && r.value.outcome.Candidates? && Hint(r.value.hints, "different_dczone") != "" ==>
              forall c :: c in r.value.outcome.cells ==> !InDczone(c, Hint(r.value.hints, "different_dczone"))
    ensures missing == Ignore ==> !(r.Err? && r.error.CellNotInCandidates?)
    ensures r.Ok? && |hints| > 0 ==>
              Standardize(hints, env).Ok? && r.value.hints == Standardize(hints, env).value - {"same_cell"}
    ensures r.Ok? && r.value.outcome.Candidates? ==>
              forall c :: multiset(r.value.outcome.cells)[c] == KeptCount(c, cells, r.value.hints, env)
    ensures |hints| > 0 ==>
              (r.Err? <==> Standardize(hints, env).Err?
                           || (Hint(Standardize(hints, env).value, "same_cell") == ""
                               && Narrow(missing, cells, Standardize(hints, env).value - {"same_cell"}, env).Err?))
    ensures |hints| > 0 && Standardize(hints, env).Err? ==> r == Err(Standardize(hints, env).error)
    ensures r.Err? && |hints| > 0 && Standardize(hints, env).Ok? ==>
              r.error == Narrow(missing, cells, Standardize(hints, env).value - {"same_cell"}, env).error
    ensures r.Ok? ==> (r.value.outcome.RoutedDirectly? <==> |hints| > 0 && Hint(Standardize(hints, env).value, "same_cell") != "")
    ensures r.Ok? && r.value.outcome.RoutedDirectly? ==>
              r.value.outcome.cellName == Hint(Standardize(hints, env).value, "same_cell")
  {
    if |hints| == 0 then
      Seqs.SubsequenceRefl(cells);
      Ok(Run(Candidates(cells), hints))
    else match Standardize(hints, env)
      case Err(e) => Err(e)
      case Ok(std) =>
        var same := Hint(std, "same_cell");
        var rest := std - {"same_cell"};
        if same != "" then Ok(Run(RoutedDirectly(same), rest))
        else match Narrow(missing, cells, rest, env)
          case Err(e) => Err(e)
          case Ok(out) => Ok(Run(Candidates(out), rest))
  }

  /** `RAXNearFarCellFilter.filter_all`, as written. */
  function FilterAll(cells: seq<Cell>, hints: map<string, string>, env: Env): (r: Result<Run, FilterError>)
    ensures |hints| == 0 ==> r == Ok(Run(Candidates(cells), hints))
    ensures r.Ok? && r.value.outcome.Candidates? ==> Seqs.IsSubsequence(r.value.outcome.cells, cells)
    ensures r.Ok? && |hints| > 0 ==>
              Standardize(hints, env).Ok? && r.value.hints == Standardize(hints, env).value - {"same_cell"}
    ensures r.Ok? && r.value.outcome.Candidates? ==>
              forall c :: multiset(r.value.outcome.cells)[c] == KeptCount(c, cells, r.value.hints, env)
    ensures |hints| > 0 ==>
              (r.Err? <==> Standardize(hints, env).Err?
                           || (Hint(Standardize(hints, env).value, "same_cell") == ""
                               && Narrow(Raise, cells, Standardize(hints, env).value - {"same_cell"}, env).Err?))
    ensures |hints| > 0 && Standardize(hints, env).Err? ==> r == Err(Standardize(hints, env).error)
    ensures r.Err? && |hints| > 0 && Standardize(hints, env).Ok? ==>
              r.error == Narrow(Raise, cells, Standardize(hints, env).value - {"same_cell"}, env).error
    ensures r.Ok? ==> (r.value.outcome.RoutedDirectly? <==> |hints| > 0 && Hint(Standardize(hints, env).value, "same_cell") != "")
    ensures r.Ok? && r.value.outcome.RoutedDirectly? ==>
              r.value.outcome.cellName == Hint(Standardize(hints, env).value, "same_cell")
  {
    FilterWith(Raise, cells, hints, env)
  }

  /** `filter_all` with the `remove` failure swallowed, as the surrounding
      `try` evidently means to. */
  function FilterAllCorrected(cells: seq<Cell>, hints: map<string, string>, env: Env): (r: Result<Run, FilterError>)
    ensures !(r.Err? && r.error.CellNotInCandidates?)
    ensures |hints| == 0 ==> r == Ok(Run(Candidates(cells), hints))
    ensures r.Ok? && r.value.outcome.Candidates? ==> Seqs.IsSubsequence(r.value.outcome.cells, cells)
    ensures r.Ok? && |hints| > 0 ==>
              Standardize(hints, env).Ok? && r.value.hints == Standardize(hints, env).value - {"same_cell"}
    ensures r.Ok? && r.value.outcome.Candidates? ==>
              forall c :: multiset(r.value.outcome.cells)[c] == KeptCount(c, cells, r.value.hints, env)
    ensures |hints| > 0 ==>
              (r.Err? <==> Standardize(hints, env).Err?
                           || (Hint(Standardize(hints, env).value, "same_cell") == ""
                               && Narrow(Ignore, cells, Standardize(hints, env).value - {"same_cell"}, env).Err?))
    ensures |hints| > 0 && Standardize(hints, env).Err? ==> r == Err(Standardize(hints, env).error)
    ensures r.Err? && |hints| > 0 && Standardize(hints, env).Ok? ==>
              r.error == Narrow(Ignore, cells, Standardize(hints, env).value - {"same_cell"}, env).error
    ensures r.Ok? ==> (r.value.outcome.RoutedDirectly? <==> |hints| > 0 && Hint(Standardize(hints, env).value, "same_cell") != "")
    ensures r.Ok? && r.value.outcome.RoutedDirectly? ==>
              r.value.outcome.cellName == Hint(Standardize(hints, env).value, "same_cell")
  {
    FilterWith(Ignore, cells, hints, env)
  }

  /** Hints the filter does not act on (`{"foo": "bar"}`, or falsy `near`
      and `far`) leave every candidate in place, under either policy. */
  lemma UnrelatedHintsKeepCandidates(missing: MissingCell, cells: seq<Cell>, hints: map<string, string>, env: Env)
    requires Hint(hints, "near") == "" && Hint(hints, "far") == "" && Hint(hints, "same_cell") == ""
    requires Hint(hints, "different_cell") == "" && Hint(hints, "different_dczone") == ""
    ensures FilterWith(missing, cells, hints, env).Ok?
    ensures FilterWith(missing, cells, hints, env).value.outcome == Candidates(cells)
  {
    if |hints| > 0 {
      var rest := hints - {"near"} - {"far"} - {"same_cell"};
      assert Hint(rest, "different_cell") == "" && Hint(rest, "different_dczone") == "";
    }
  }

  /** A truthy `near` hint always ends in a direct route to that instance's
      cell, or in an error. */
  lemma NearRoutesDirectly(cells: seq<Cell>, hints: map<string, string>, env: Env)
    requires Hint(hints, "near") != ""
    ensures var r := FilterAll(cells, hints, env);
            r.Ok? ==> hints["near"] in env.instances
                      && r.value.outcome == RoutedDirectly(env.instances[hints["near"]].cellName.value)
    ensures hints["near"] !in env.instances ==> FilterAll(cells, hints, env) == Err(InstanceNotFound(hints["near"], "near"))
  {
    var std := Standardize(hints, env);
    if std.Ok? {
      assert Hint(std.value, "same_cell") == env.instances[hints["near"]].cellName.value;
    }
  }

  /** A truthy `far` hint removes one copy of the far instance's cell from
      the candidates once a single hop separates it from here. */
  lemma FarAvoidsTargetCell(cells: seq<Cell>, hints: map<string, string>, env: Env, target: string, c: Cell)
    requires Hint(hints, "near") == "" && Hint(hints, "same_cell") == "" && Hint(hints, "far") != ""
    requires hints["far"] in env.instances && env.instances[hints["far"]].cellName == Some(target) && target != ""
    requires FindCell(target, env) == Some(c) && Count(target, Sep) <= Count(env.routingPath, Sep) + 1
    requires c in cells
    ensures var r := FilterAll(cells, hints, env);
            r.Ok? ==> r.value.outcome.Candidates? && multiset(r.value.outcome.cells)[c] < multiset(cells)[c]
  {
    var std := Standardize(hints, env);
    if std.Ok? {
      var rest := std.value - {"same_cell"};
      assert Hint(rest, "different_cell") == target;
      var kept := AvoidCell(Raise, cells, target, env);
      assert multiset(kept.value) == multiset(cells) - multiset{c};
      var out := Narrow(Raise, cells, rest, env);
      if out.Ok? {
        if |kept.value| > 0 {
          var dz := AvoidDczone(kept.value, Hint(rest, "different_dczone"));
          assert multiset(out.value)[c] <= multiset(kept.value)[c];
        }
      }
    }
  }

  /** A lone `near` hint resolving to a cell routes the build there and
      leaves no hints behind. */
  lemma NearOnly(cells: seq<Cell>, uuid: string, env: Env, target: string)
    requires uuid != "" && uuid in env.instances && env.instances[uuid].cellName == Some(target) && target != ""
    ensures FilterAll(cells, map["near" := uuid], env) == Ok(Run(RoutedDirectly(target), map[]))
  {
    var hints := map["near" := uuid];
    assert Hint(hints, "near") == uuid;
    assert hints - {"near"} == map[];
    var h2 := map["same_cell" := target];
    assert Hint(h2, "far") == "";
    assert h2 - {"far"} == h2;
    assert Standardize(hints, env) == Ok(h2);
    assert Hint(h2, "same_cell") == target;
    assert h2 - {"same_cell"} == map[];
  }

  /** A lone `far` hint whose cell advertises no DCZONE becomes a lone
      `different_cell` hint. */
  lemma FarOnlyStandardized(uuid: string, env: Env, target: string)
    requires uuid != "" && uuid in env.instances && env.instances[uuid].cellName == Some(target) && target != ""
    requires FindCell(target, env).None? || !HasDczone(FindCell(target, env).value)
    ensures Standardize(map["far" := uuid], env) == Ok(map["different_cell" := target])
  {
    var hints := map["far" := uuid];
    assert Hint(hints, "near") == "";
    assert hints - {"near"} == hints;
    assert Hint(hints, "far") == uuid;
    assert hints - {"far"} == map[];
    assert map[]["different_cell" := target] == map["different_cell" := target];
  }

  /** A lone `far` hint naming a cell one hop away: the cell is removed when
      it is a candidate; otherwise the filter as written raises and the
      corrected one leaves the candidates alone. */
  lemma FarOneHop(missing: MissingCell, cells: seq<Cell>, uuid: string, env: Env, target: string, c: Cell)
    requires uuid != "" && uuid in env.instances && env.instances[uuid].cellName == Some(target) && target != ""
    requires FindCell(target, env) == Some(c) && !HasDczone(c)
    requires Count(target, Sep) <= Count(env.routingPath, Sep) + 1
    ensures var run := Ok(Run(Candidates(if c in cells then Seqs.RemoveFirst(cells, c) else cells),
                              map["different_cell" := target]));
            FilterWith(missing, cells, map["far" := uuid], env) ==
              if c in cells || missing == Ignore then run else Err(CellNotInCandidates(c))
  {
    FarOnlyStandardized(uuid, env, target);
    FarHints(target);
    NarrowFarOnly(missing, cells, target, env, c);
  }

  /** A lone `far` hint whose cell advertises a DCZONE becomes a
      `different_cell` hint plus a `different_dczone` hint naming the first
      entry of that list. */
  lemma FarZoneStandardized(uuid: string, env: Env, target: string, c: Cell)
    requires uuid != "" && uuid in env.instances && env.instances[uuid].cellName == Some(target) && target != ""
    requires FindCell(target, env) == Some(c) && HasDczone(c)
    ensures Standardize(map["far" := uuid], env)
              == Ok(map["different_cell" := target, "different_dczone" := c.capabilities["DCZONE"][0]])
  {
    var hints := map["far" := uuid];
    assert Hint(hints, "near") == "";
    assert hints - {"near"} == hints;
    assert Hint(hints, "far") == uuid;
    assert hints - {"far"} == map[];
    assert map[]["different_cell" := target] == map["different_cell" := target];
  }

  /** A `different_dczone` hint on its own (a routing hop below the one that
      standardized it): the candidates outside that zone, in order, or the
      `IndexError` of a candidate with an empty DCZONE list. */
  lemma DczoneHintOnly(missing: MissingCell, cells: seq<Cell>, dczone: string, env: Env)
    ensures var hints := map["different_dczone" := dczone];
            FilterWith(missing, cells, hints, env) ==
              if dczone != "" && SomeEmptyDczone(cells) then Err(EmptyDczone)
              else Ok(Run(Candidates(if dczone == "" then cells else Seqs.Filter(cells, OutsideDczone(dczone))), hints))
  {
    var hints := map["different_dczone" := dczone];
    assert Hint(hints, "near") == "" && Hint(hints, "far") == "";
    assert hints - {"near"} - {"far"} == hints;
    assert Hint(hints, "same_cell") == "" && hints - {"same_cell"} == hints;
    assert Hint(hints, "different_cell") == "" && Hint(hints, "different_dczone") == dczone;
    if |cells| == 0 {
      assert Seqs.Filter(cells, OutsideDczone(dczone)) == [];
    }
  }

  /** A lone `far` hint whose instance lives in a cell advertising DCZONE
      `d`: every candidate in zone `d` is dropped, the far cell among them,
      whatever the number of hops. The filter as written still raises first
      when the far cell is one hop away and not a candidate; the corrected
      one does not. */
  lemma FarDczone(missing: MissingCell, cells: seq<Cell>, uuid: string, env: Env, target: string, c: Cell)
    requires uuid != "" && uuid in env.instances && env.instances[uuid].cellName == Some(target) && target != ""
    requires FindCell(target, env) == Some(c) && HasDczone(c) && c.capabilities["DCZONE"][0] != ""
    ensures var d := c.capabilities["DCZONE"][0];
            var hints := map["different_cell" := target, "different_dczone" := d];
            FilterWith(missing, cells, map["far" := uuid], env) ==
              if missing == Raise && Count(target, Sep) <= Count(env.routingPath, Sep) + 1 && c !in cells
              then Err(CellNotInCandidates(c))
              else if SomeEmptyDczone(cells) then Err(EmptyDczone)
              else Ok(Run(Candidates(Seqs.Filter(cells, OutsideDczone(d))), hints))
  {
    var d := c.capabilities["DCZONE"][0];
    var hints := map["different_cell" := target, "different_dczone" := d];
    FarZoneStandardized(uuid, env, target, c);
    assert hints - {"same_cell"} == hints && Hint(hints, "same_cell") == "";
    assert Hint(hints, "different_cell") == target && Hint(hints, "different_dczone") == d;
    NarrowInZone(missing, cells, hints, env, c);
  }

  /** The narrowing of `FarDczone`, for hints whose avoided cell lies in
      the avoided zone. */
  lemma NarrowInZone(missing: MissingCell, cells: seq<Cell>, hints: map<string, string>, env: Env, c: Cell)
    requires Hint(hints, "different_cell") != "" && FindCell(Hint(hints, "different_cell"), env) == Some(c)
    requires HasDczone(c) && Hint(hints, "different_dczone") == c.capabilities["DCZONE"][0] != ""
    ensures var target := Hint(hints, "different_cell");
            Narrow(missing, cells, hints, env) ==
              if missing == Raise && Count(target, Sep) <= Count(env.routingPath, Sep) + 1 && c !in cells
              then Err(CellNotInCandidates(c))
              else if SomeEmptyDczone(cells) then Err(EmptyDczone)
              else Ok(Seqs.Filter(cells, OutsideDczone(Hint(hints, "different_dczone"))))
  {
    var target := Hint(hints, "different_cell");
    var d := Hint(hints, "different_dczone");
    var kept := AvoidCell(missing, cells, target, env);
    if kept.Ok? {
      if c in cells && Count(target, Sep) <= Count(env.routingPath, Sep) + 1 {
        assert kept.value == Seqs.RemoveFirst(cells, c);
      } else {
        assert kept.value == cells;
      }
      KeptLikeCells(cells, kept.value, c, d);
      if |kept.value| == 0 {
        assert !SomeEmptyDczone(kept.value) && Seqs.Filter(kept.value, OutsideDczone(d)) == [];
      }
      assert Narrow(missing, cells, hints, env) ==
               if SomeEmptyDczone(kept.value) then Err(EmptyDczone) else Ok(Seqs.Filter(kept.value, OutsideDczone(d)));
    }
  }

  /** Dropping one copy of a cell of zone `d` changes neither what the zone
      step keeps nor whether it raises. */
  lemma KeptLikeCells(cells: seq<Cell>, kept: seq<Cell>, c: Cell, d: string)
    requires kept == cells || (c in cells && kept == Seqs.RemoveFirst(cells, c))
    requires HasDczone(c) && c.capabilities["DCZONE"][0] == d
    ensures Seqs.Filter(kept, OutsideDczone(d)) == Seqs.Filter(cells, OutsideDczone(d))
    ensures SomeEmptyDczone(kept) <==> SomeEmptyDczone(cells)
  {
    if kept != cells {
      assert !OutsideDczone(d)(c);
      Seqs.FilterRemoveFirst(cells, c, OutsideDczone(d));
      EmptyDczoneAfterRemove(cells, c);
    }
  }

  /** Removing a cell that advertises a DCZONE keeps every cell with an
      empty DCZONE list. */
  lemma EmptyDczoneAfterRemove(cells: seq<Cell>, c: Cell)
    requires c in cells && HasDczone(c)
    ensures SomeEmptyDczone(Seqs.RemoveFirst(cells, c)) <==> SomeEmptyDczone(cells)
  {
    var kept := Seqs.RemoveFirst(cells, c);
    EmptyDczoneInSuperset(kept, cells);
    if SomeEmptyDczone(cells) {
      var x :| x in cells && EmptyDczoneList(x);
      assert x != c;
      assert multiset(kept)[x] == multiset(cells)[x] > 0;
      assert x in kept;
    }
  }

  /** The standardized hints of a lone `far`. */
  lemma FarHints(target: string)
    ensures var rest := map["different_cell" := target];
            rest - {"same_cell"} == rest && Hint(rest, "same_cell") == ""
            && Hint(rest, "different_dczone") == "" && Hint(rest, "different_cell") == target
  {
    var rest := map["different_cell" := target];
    assert rest - {"same_cell"} == rest;
  }

  /** The narrowing step for a lone `different_cell` one hop away. */
  lemma NarrowFarOnly(missing: MissingCell, cells: seq<Cell>, target: string, env: Env, c: Cell)
    requires FindCell(target, env) == Some(c) && target != ""
    requires Count(target, Sep) <= Count(env.routingPath, Sep) + 1
    requires Hint(map["different_cell" := target], "different_dczone") == ""
    requires Hint(map["different_cell" := target], "different_cell") == target
    ensures Narrow(missing, cells, map["different_cell" := target], env) ==
              if c in cells then Ok(Seqs.RemoveFirst(cells, c))
              else if missing == Ignore then Ok(cells) else Err(CellNotInCandidates(c))
  {
  }

}

/** The near/far unit test: routing path `global`, children cell0..cell2,
    and one instance living in `global!cell0`. */
module NearFarExamples {
  import opened Wrappers
  import opened CellState
  import opened NearFarFilter
  import Strings

  function C(name: string): Cell {
    Cell(name, false, map[])
  }

  /** `global!cell0`, built from its components. */
  function Cell0Path(): string {
    "global" + [Sep] + "cell0"
  }

  function TestEnv(): Env {
    Env("global", map["u1" := Instance(Some(Cell0Path()))], Cell("global", true, map[]),
        map["cell0" := C("cell0"), "cell1" := C("cell1"), "cell2" := C("cell2")])
  }

  lemma TargetIsCellZero()
    ensures FindCell(Cell0Path(), TestEnv()) == Some(C("cell0"))
  {
    assert Sep !in "cell0";
    FindChildCell(TestEnv(), "cell0");
  }

  /** The instance's cell is exactly one hop below `global`. */
  lemma OneHopLeft()
    ensures Strings.Count(Cell0Path(), Sep) == Strings.Count("global", Sep) + 1
  {
    assert Sep !in "global" && Sep !in "cell0";
    Strings.CountAbsent("global", Sep);
    Strings.CountAbsent("cell0", Sep);
    Strings.CountConcat("global", [Sep], Sep);
    Strings.CountConcat("global" + [Sep], "cell0", Sep);
    assert Strings.Count([Sep], Sep) == 1;
  }

  /** `near`: the build is sent straight to the instance's cell. */
  lemma NearExample()
    ensures FilterAll([C("cell0"), C("cell1"), C("cell2")], map["near" := "u1"], TestEnv())
              == Ok(Run(RoutedDirectly(Cell0Path()), map[]))
  {
    NearOnly([C("cell0"), C("cell1"), C("cell2")], "u1", TestEnv(), Cell0Path());
  }

  /** What the far lemmas need to know about the test environment. */
  lemma FarSetting()
    ensures "u1" in TestEnv().instances && TestEnv().instances["u1"].cellName == Some(Cell0Path())
    ensures Cell0Path() != "" && !HasDczone(C("cell0"))
    ensures FindCell(Cell0Path(), TestEnv()) == Some(C("cell0"))
    ensures Strings.Count(Cell0Path(), Sep) <= Strings.Count(TestEnv().routingPath, Sep) + 1
  {
    TargetIsCellZero();
    OneHopLeft();
  }

  /** `far`: cell0 is one hop away, so it is removed. */
  lemma FarExample()
    ensures FilterAll([C("cell0"), C("cell1"), C("cell2")], map["far" := "u1"], TestEnv())
              == Ok(Run(Candidates([C("cell1"), C("cell2")]), map["different_cell" := Cell0Path()]))
  {
    FarSetting();
    var cells := [C("cell0"), C("cell1"), C("cell2")];
    FarOneHop(Raise, cells, "u1", TestEnv(), Cell0Path(), C("cell0"));
    assert Seqs.RemoveFirst(cells, C("cell0")) == [C("cell1"), C("cell2")];
  }

  lemma CellZeroGone()
    ensures C("cell0") !in [C("cell1"), C("cell2")]
  {
  }

  /** When an earlier filter has already dropped cell0, `list.remove` raises
      `ValueError`, which the `except KeyError` around it does not catch. */
  lemma FarMissingCellRaises()
    ensures FilterAll([C("cell1"), C("cell2")], map["far" := "u1"], TestEnv())
              == Err(CellNotInCandidates(C("cell0")))
  {
    FarSetting();
    CellZeroGone();
    FarOneHop(Raise, [C("cell1"), C("cell2")], "u1", TestEnv(), Cell0Path(), C("cell0"));
  }

  /** The corrected filter leaves the candidates as they are in that case. */
  lemma FarMissingCellIgnored()
    ensures FilterAllCorrected([C("cell1"), C("cell2")], map["far" := "u1"], TestEnv())
              == Ok(Run(Candidates([C("cell1"), C("cell2")]), map["different_cell" := Cell0Path()]))
  {
    FarSetting();
    CellZeroGone();
    FarOneHop(Ignore, [C("cell1"), C("cell2")], "u1", TestEnv(), Cell0Path(), C("cell0"));
  }
}
