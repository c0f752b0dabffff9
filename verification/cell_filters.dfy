/** A candidate cell as the cell filters see it. */
module CellState {

  /** `name` is the cell's own name (not its path); `isMe` marks the local
      cell; `capabilities` maps a capability key to its advertised values. */
  datatype Cell = Cell(name: string, isMe: bool, capabilities: map<string, seq<string>>)
}

/** nova/cells/filters/permissions.py: keep the cells the caller may build in. */
module PermissionsFilter {
  import opened CellState
  import CellsConfig
  import Seqs

  /** `_name`: the routing path itself for the local cell, the path extended
      by the cell's name otherwise. */
  function AddressedName(routingPath: string, cell: Cell): (n: string)
    ensures cell.isMe ==> n == routingPath
    ensures !cell.isMe ==> n == routingPath + [CellsConfig.PathSep] + cell.name
  {
    if cell.isMe then routingPath else routingPath + [CellsConfig.PathSep] + cell.name
  }

  /** A child cell is addressed one level below the routing path: cutting
      its name at the last separator gives the routing path back, and what
      follows is the cell's own name. */
  lemma AddressedNameRoundTrip(routingPath: string, cell: Cell)
    requires !cell.isMe && CellsConfig.PathSep !in cell.name
    ensures CellsConfig.ParentPath(AddressedName(routingPath, cell)) == routingPath
    ensures AddressedName(routingPath, cell)[|routingPath| + 1..] == cell.name
  {
    CellsConfig.ParentPathOfChild(routingPath, cell.name);
  }

  /** Child cells with different names are addressed by different names,
      and none by the routing path itself. */
  lemma AddressedNamesDistinct(routingPath: string, a: Cell, b: Cell)
    requires !a.isMe && !b.isMe && a.name != b.name
    ensures AddressedName(routingPath, a) != AddressedName(routingPath, b)
    ensures AddressedName(routingPath, a) != routingPath
  {
    assert AddressedName(routingPath, a)[|routingPath| + 1..] == a.name;
    assert AddressedName(routingPath, b)[|routingPath| + 1..] == b.name;
  }

  /** The build permission (`'b'`) for one candidate. */
  predicate MayBuild(cfg: CellsConfig.Config, routingPath: string, roles: set<string>, cell: Cell)
    requires CellsConfig.WellFormed(cfg)
  {
    CellsConfig.CellHasPermission(cfg, routingPath, AddressedName(routingPath, cell), roles, 'b')
  }

  /** `CellPermissionsFilter.filter_all`. */
  function FilterAll(cfg: CellsConfig.Config, routingPath: string, roles: set<string>, cells: seq<Cell>): (r: seq<Cell>)
    requires CellsConfig.WellFormed(cfg)
    ensures Seqs.IsSubsequence(r, cells)
    ensures forall c :: multiset(r)[c] == if MayBuild(cfg, routingPath, roles, c) then multiset(cells)[c] else 0
    ensures (forall i :: 0 <= i < |cells| ==> MayBuild(cfg, routingPath, roles, cells[i])) ==> r == cells
  {
    var keep := (c: Cell) => MayBuild(cfg, routingPath, roles, c);
    Seqs.FilterAllAccepted(cells, keep);
    Seqs.Filter(cells, keep)
  }

  /** The filter decides each candidate on its own. */
  lemma FilterAllCons(cfg: CellsConfig.Config, routingPath: string, roles: set<string>, c: Cell, cells: seq<Cell>)
    requires CellsConfig.WellFormed(cfg)
    ensures FilterAll(cfg, routingPath, roles, [c] + cells) ==
              (if MayBuild(cfg, routingPath, roles, c) then [c] else []) + FilterAll(cfg, routingPath, roles, cells)
  {
    Seqs.FilterCons(c, cells, (c: Cell) => MayBuild(cfg, routingPath, roles, c));
  }

  /** A cell is in the output exactly when it was a candidate with the build
      permission. */
  lemma KeptIffPermitted(cfg: CellsConfig.Config, routingPath: string, roles: set<string>, cells: seq<Cell>, c: Cell)
    requires CellsConfig.WellFormed(cfg)
    ensures c in FilterAll(cfg, routingPath, roles, cells) <==> c in cells && MayBuild(cfg, routingPath, roles, c)
  {
    var r := FilterAll(cfg, routingPath, roles, cells);
    assert c in r <==> multiset(r)[c] > 0;
    assert c in cells <==> multiset(cells)[c] > 0;
  }
}

/** The permissions-filter unit test: cells c1..c3 under `US!East`. */
module PermissionsFilterExamples {
  import opened CellState
  import opened CellsConfig
  import opened PermissionsFilter
  import opened Wrappers
  import Strings

  const C1Rules := [Rule("privaterole", "allow", "b"), Rule("*", "deny", "b")]
  const C2Rules := [Rule("myrole", "deny", "b")]
  const RegionRules := [Rule("privaterole", "deny", "b"), Rule("*", "allow", "b")]

  function TestConfig(): (cfg: Config)
    ensures WellFormed(cfg)
  {
    map[
      "US!East!c1" := map["rules" := Rules(C1Rules)],
      "US!East!c2" := map["rules" := Rules(C2Rules)],
      "US!East" := map["rules" := Rules(RegionRules)]
    ]
  }

  function C(name: string): Cell {
    Cell(name, false, map[])
  }

  /** The rule lists the filter consults for each candidate. */
  lemma Layout()
    ensures AddressedName("US!East", C("c1")) == "US!East!c1"
    ensures AddressedName("US!East", C("c2")) == "US!East!c2"
    ensures AddressedName("US!East", C("c3")) == "US!East!c3"
    ensures RulesFor(TestConfig(), "US!East!c1") == C1Rules
    ensures RulesFor(TestConfig(), "US!East!c2") == C2Rules
    ensures RulesFor(TestConfig(), "US!East!c3") == []
    ensures RulesFor(TestConfig(), "US!East") == RegionRules
  {
  }

  /** How a candidate's decision follows from the verdicts of its own rules
      and of the region's. */
  lemma Decision(cfg: Config, roles: set<string>, cell: Cell, path: string, own: Option<bool>, region: Option<bool>)
    requires WellFormed(cfg)
    requires AddressedName("US!East", cell) == path
    requires TestRules(RulesFor(cfg, path), roles, 'b') == own
    requires TestRules(RulesFor(cfg, "US!East"), roles, 'b') == region
    ensures MayBuild(cfg, "US!East", roles, cell) == if own.Some? then own.value else region.Some? && region.value
  {
  }

  lemma LowerActions()
    ensures Strings.Lower("allow") == "allow" && Strings.Lower("deny") == "deny"
  {
  }

  /** What each rule list says to one role. */
  lemma Verdicts(role: string)
    requires role != "*"
    ensures TestRules(C1Rules, {role}, 'b') == Some(role == "privaterole")
    ensures TestRules(C2Rules, {role}, 'b') == if role == "myrole" then Some(false) else None
    ensures TestRules(RegionRules, {role}, 'b') == Some(role != "privaterole")
  {
    LowerActions();
    C1Verdict(role);
    C2Verdict(role);
    RegionVerdict(role);
  }

  /** A build rule's verdict for a caller with the single role `role`. */
  lemma BuildRule(rule: Rule, role: string)
    requires rule.permChars == "b"
    ensures RunRule({role}, rule, 'b') ==
              if rule.role == role || rule.role == "*" then Some(Strings.Lower(rule.action) == "allow") else None
  {
    assert 'b' in rule.permChars;
  }

  lemma C1Verdict(role: string)
    requires role != "*" && Strings.Lower("allow") == "allow" && Strings.Lower("deny") == "deny"
    ensures TestRules(C1Rules, {role}, 'b') == Some(role == "privaterole")
  {
    var x, y := Rule("privaterole", "allow", "b"), Rule("*", "deny", "b");
    assert C1Rules == [x, y] && C1Rules[1..] == [y];
    BuildRule(x, role);
    BuildRule(y, role);
    TestRulesStep(C1Rules, {role}, 'b');
    TestRulesStep(C1Rules[1..], {role}, 'b');
  }

  lemma C2Verdict(role: string)
    requires Strings.Lower("deny") == "deny"
    ensures TestRules(C2Rules, {role}, 'b') == if role == "myrole" then Some(false) else None
  {
    var x := Rule("myrole", "deny", "b");
    assert C2Rules == [x] && C2Rules[1..] == [];
    BuildRule(x, role);
    TestRulesStep(C2Rules, {role}, 'b');
  }

  lemma RegionVerdict(role: string)
    requires role != "*" && Strings.Lower("allow") == "allow" && Strings.Lower("deny") == "deny"
    ensures TestRules(RegionRules, {role}, 'b') == Some(role != "privaterole")
  {
    var x, y := Rule("privaterole", "deny", "b"), Rule("*", "allow", "b");
    assert RegionRules == [x, y] && RegionRules[1..] == [y];
    BuildRule(x, role);
    BuildRule(y, role);
    TestRulesStep(RegionRules, {role}, 'b');
    TestRulesStep(RegionRules[1..], {role}, 'b');
  }

  /** Role `privaterole` may build only in c1. */
  lemma PrivateRoleExample()
    ensures FilterAll(TestConfig(), "US!East", {"privaterole"}, [C("c1"), C("c2"), C("c3")]) == [C("c1")]
  {
    PrivateRoleDecisions();
    ThreeCells(TestConfig(), {"privaterole"}, C("c1"), C("c2"), C("c3"), true, false, false);
    Picks(C("c1"), C("c2"), C("c3"));
  }

  lemma PrivateRoleDecisions()
    ensures MayBuild(TestConfig(), "US!East", {"privaterole"}, C("c1"))
    ensures !MayBuild(TestConfig(), "US!East", {"privaterole"}, C("c2"))
    ensures !MayBuild(TestConfig(), "US!East", {"privaterole"}, C("c3"))
  {
    Verdicts("privaterole");
    Decisions("privaterole", Some(true), None, Some(false));
  }

  /** Role `myrole` is denied in c2 and falls to the default deny in c1, so
      only c3 remains. */
  lemma WildcardRolesExample()
    ensures FilterAll(TestConfig(), "US!East", {"myrole"}, [C("c1"), C("c2"), C("c3")]) == [C("c3")]
  {
    MyRoleDecisions();
    ThreeCells(TestConfig(), {"myrole"}, C("c1"), C("c2"), C("c3"), false, false, true);
    Picks(C("c1"), C("c2"), C("c3"));
  }

  lemma MyRoleDecisions()
    ensures !MayBuild(TestConfig(), "US!East", {"myrole"}, C("c1"))
    ensures !MayBuild(TestConfig(), "US!East", {"myrole"}, C("c2"))
    ensures MayBuild(TestConfig(), "US!East", {"myrole"}, C("c3"))
  {
    Verdicts("myrole");
    Decisions("myrole", Some(false), Some(false), Some(true));
  }

  /** Role `anotherrole` reaches c2 and c3 through the region's wildcard. */
  lemma AnotherRoleExample()
    ensures FilterAll(TestConfig(), "US!East", {"anotherrole"}, [C("c1"), C("c2"), C("c3")]) == [C("c2"), C("c3")]
  {
    AnotherRoleDecisions();
    ThreeCells(TestConfig(), {"anotherrole"}, C("c1"), C("c2"), C("c3"), false, true, true);
    Picks(C("c1"), C("c2"), C("c3"));
  }

  lemma AnotherRoleDecisions()
    ensures !MayBuild(TestConfig(), "US!East", {"anotherrole"}, C("c1"))
    ensures MayBuild(TestConfig(), "US!East", {"anotherrole"}, C("c2"))
    ensures MayBuild(TestConfig(), "US!East", {"anotherrole"}, C("c3"))
  {
    Verdicts("anotherrole");
    Decisions("anotherrole", Some(false), None, Some(true));
  }

  /** The three candidates' decisions for one role, from the verdicts of
      the rule lists. */
  lemma Decisions(role: string, v1: Option<bool>, v2: Option<bool>, vr: Option<bool>)
    requires TestRules(C1Rules, {role}, 'b') == v1
    requires TestRules(C2Rules, {role}, 'b') == v2
    requires TestRules(RegionRules, {role}, 'b') == vr
    ensures MayBuild(TestConfig(), "US!East", {role}, C("c1")) == if v1.Some? then v1.value else vr.Some? && vr.value
    ensures MayBuild(TestConfig(), "US!East", {role}, C("c2")) == if v2.Some? then v2.value else vr.Some? && vr.value
    ensures MayBuild(TestConfig(), "US!East", {role}, C("c3")) == (vr.Some? && vr.value)
  {
    Layout();
    Decision(TestConfig(), {role}, C("c1"), "US!East!c1", v1, vr);
    Decision(TestConfig(), {role}, C("c2"), "US!East!c2", v2, vr);
    Decision(TestConfig(), {role}, C("c3"), "US!East!c3", None, vr);
  }

  /** The selections of three candidates the examples need. */
  lemma Picks<T>(a: T, b: T, c: T)
    ensures [a] + ([] + []) == [a]
    ensures [] + ([] + [c]) == [c]
    ensures [] + ([b] + [c]) == [b, c]
  {
  }

  lemma ThreeCells(cfg: Config, roles: set<string>, a: Cell, b: Cell, c: Cell, k1: bool, k2: bool, k3: bool)
    requires WellFormed(cfg)
    requires MayBuild(cfg, "US!East", roles, a) == k1
    requires MayBuild(cfg, "US!East", roles, b) == k2
    requires MayBuild(cfg, "US!East", roles, c) == k3
    ensures FilterAll(cfg, "US!East", roles, [a, b, c]) ==
              (if k1 then [a] else []) + ((if k2 then [b] else []) + (if k3 then [c] else []))
  {
    assert FilterAll(cfg, "US!East", roles, []) == [];
    FilterAllCons(cfg, "US!East", roles, c, []);
    FilterAllCons(cfg, "US!East", roles, b, [c]);
    FilterAllCons(cfg, "US!East", roles, a, [b, c]);
    Seqs.ConsThree(a, b, c);
  }
}

/** nova/cells/filters/flavor_classes.py: keep the cells that can host the
    requested flavor class. */
module FlavorClassFilter {
  import opened CellState
  import Seqs

  /** A cell accepts a class when it advertises no `flavor_classes` at all,
      or advertises a list containing the class. */
  predicate Supports(cell: Cell, requested: string) {
    "flavor_classes" !in cell.capabilities || requested in cell.capabilities["flavor_classes"]
  }

  /** `CellsFlavorClassFilter.filter_all`, given the flavor's `extra_specs`. */
  function FilterAll(extraSpecs: map<string, string>, cells: seq<Cell>): (r: seq<Cell>)
    ensures "class" !in extraSpecs ==> r == cells
    ensures Seqs.IsSubsequence(r, cells)
    ensures "class" in extraSpecs ==>
              forall c :: multiset(r)[c] == if Supports(c, extraSpecs["class"]) then multiset(cells)[c] else 0
  {
    if "class" !in extraSpecs then
      Seqs.SubsequenceRefl(cells);
      cells
    else
      var requested := extraSpecs["class"];
      Seqs.Filter(cells, (c: Cell) => Supports(c, requested))
  }

  /** With a class requested, the filter decides each candidate on its own. */
  lemma FilterAllCons(requested: string, c: Cell, cells: seq<Cell>)
    ensures FilterAll(map["class" := requested], [c] + cells) ==
              (if Supports(c, requested) then [c] else []) + FilterAll(map["class" := requested], cells)
  {
    Seqs.FilterCons(c, cells, (c: Cell) => Supports(c, requested));
  }

  /** A cell without a `flavor_classes` capability is never filtered out. */
  lemma UnclassifiedCellKept(extraSpecs: map<string, string>, cells: seq<Cell>, c: Cell)
    requires c in cells && "flavor_classes" !in c.capabilities
    ensures c in FilterAll(extraSpecs, cells)
  {
    var r := FilterAll(extraSpecs, cells);
    assert multiset(cells)[c] > 0;
    assert multiset(r)[c] > 0;
  }

  /** A cell advertising classes that exclude the requested one is always
      dropped; in particular an advertised empty list rejects every class. */
  lemma ExcludingCellDropped(extraSpecs: map<string, string>, cells: seq<Cell>, c: Cell)
    requires "class" in extraSpecs
    requires "flavor_classes" in c.capabilities && extraSpecs["class"] !in c.capabilities["flavor_classes"]
    ensures c !in FilterAll(extraSpecs, cells)
  {
    var r := FilterAll(extraSpecs, cells);
    assert multiset(r)[c] == 0;
  }
}

/** The flavor-classes unit test: four cells with different advertisements. */
module FlavorClassFilterExamples {
  import opened CellState
  import opened FlavorClassFilter
  import Seqs

  function Cell1(): Cell { Cell("cell1", false, map[]) }
  function Cell2(): Cell { Cell("cell2", false, map["flavor_classes" := []]) }
  function Cell3(): Cell { Cell("cell3", false, map["flavor_classes" := ["class1", "class2"]]) }
  function Cell4(): Cell { Cell("cell4", false, map["flavor_classes" := ["class2", "class3"]]) }

  function Cells(): seq<Cell> {
    [Cell1(), Cell2(), Cell3(), Cell4()]
  }

  /** The one-element contribution of a candidate. */
  function Kept(requested: string, c: Cell): seq<Cell> {
    if Supports(c, requested) then [c] else []
  }

  lemma OneCell(requested: string, d: Cell)
    ensures FilterAll(map["class" := requested], [d]) == Kept(requested, d)
  {
    FilterAllCons(requested, d, []);
    Seqs.ConsFour(d, d, d, d);
  }

  lemma TwoCells(requested: string, c: Cell, d: Cell)
    ensures FilterAll(map["class" := requested], [c, d]) == Kept(requested, c) + Kept(requested, d)
  {
    OneCell(requested, d);
    FilterAllCons(requested, c, [d]);
    Seqs.ConsFour(c, c, c, d);
  }

  lemma ThreeCells(requested: string, b: Cell, c: Cell, d: Cell)
    ensures FilterAll(map["class" := requested], [b, c, d]) ==
              Kept(requested, b) + (Kept(requested, c) + Kept(requested, d))
  {
    TwoCells(requested, c, d);
    FilterAllCons(requested, b, [c, d]);
    Seqs.ConsFour(b, b, c, d);
  }

  lemma FourCells(requested: string, a: Cell, b: Cell, c: Cell, d: Cell)
    ensures FilterAll(map["class" := requested], [a, b, c, d]) ==
              Kept(requested, a) + (Kept(requested, b) + (Kept(requested, c) + Kept(requested, d)))
  {
    ThreeCells(requested, b, c, d);
    FilterAllCons(requested, a, [b, c, d]);
    Seqs.ConsFour(a, b, c, d);
  }

  /** An unknown class matches only the cell that advertises nothing. */
  lemma UnknownClassExample()
    ensures FilterAll(map["class" := "unknown"], Cells()) == [Cell1()]
  {
    FourCells("unknown", Cell1(), Cell2(), Cell3(), Cell4());
    UnknownClassKept();
  }

  lemma UnknownClassKept()
    ensures Kept("unknown", Cell1()) == [Cell1()]
    ensures Kept("unknown", Cell2()) == []
    ensures Kept("unknown", Cell3()) == []
    ensures Kept("unknown", Cell4()) == []
  {
  }

  /** `class1` matches cell1 and cell3. */
  lemma MatchingClassOneCellExample()
    ensures FilterAll(map["class" := "class1"], Cells()) == [Cell1(), Cell3()]
  {
    FourCells("class1", Cell1(), Cell2(), Cell3(), Cell4());
    ClassOneKept();
  }

  lemma ClassOneKept()
    ensures Kept("class1", Cell1()) == [Cell1()]
    ensures Kept("class1", Cell2()) == []
    ensures Kept("class1", Cell3()) == [Cell3()]
    ensures Kept("class1", Cell4()) == []
  {
  }

  /** `class2` matches every cell except the one advertising an empty list. */
  lemma MatchingClassTwoCellsExample()
    ensures FilterAll(map["class" := "class2"], Cells()) == [Cell1(), Cell3(), Cell4()]
  {
    FourCells("class2", Cell1(), Cell2(), Cell3(), Cell4());
    ClassTwoKept();
  }

  lemma ClassTwoKept()
    ensures Kept("class2", Cell1()) == [Cell1()]
    ensures Kept("class2", Cell2()) == []
    ensures Kept("class2", Cell3()) == [Cell3()]
    ensures Kept("class2", Cell4()) == [Cell4()]
  {
  }

  /** No requested class: every cell is returned unchanged. */
  lemma NoClassExample()
    ensures FilterAll(map[], Cells()) == Cells()
  {
  }
}
