/** The cells permission engine of nova/cells/cfg.py: per-path rule lists,
    first matching rule wins, the cell's own rules before the routing path's,
    deny by default. The configuration file is an immutable map here. */
module CellsConfig {
  import opened Wrappers
  import opened Strings

  /** Separator between cell names in a routing path. */
  const PathSep: char := '!'

  /** A rule `(role, action, perm_chars)`. */
  datatype Rule = Rule(role: string, action: string, permChars: string)

  /** The values a cell entry of the configuration document holds: a list of
      rules, a boolean, a number or a string. */
  datatype ConfigValue = Rules(rules: seq<Rule>) | Flag(flag: bool) | Number(n: int) | Text(text: string)

  /** The loaded document: routing path -> key -> value. */
  type Config = map<string, map<string, ConfigValue>>

  /** Every `rules` entry is a list of rule triples; the other shapes the
      Python loop would iterate or reject are outside the model. `read_only`
      may hold any value: only its truthiness is read. */
  predicate WellFormed(cfg: Config) {
    forall path :: path in cfg ==> ("rules" in cfg[path] ==> cfg[path]["rules"].Rules?)
  }

  /** `get_cell_dict`: the entry of a path, empty when absent. */
  function GetCellDict(cfg: Config, cellName: string): (d: map<string, ConfigValue>)
    ensures cellName !in cfg ==> d == map[]
  {
    if cellName in cfg then cfg[cellName] else map[]
  }

  /** `get_value`: a key of a path's entry, or the default. */
  function GetValue(cfg: Config, cellName: string, key: string, default: ConfigValue): (v: ConfigValue)
    ensures cellName !in cfg || key !in cfg[cellName] ==> v == default
    ensures cellName in cfg && key in cfg[cellName] ==> v == cfg[cellName][key]
  {
    var d := GetCellDict(cfg, cellName);
    if key in d then d[key] else default
  }

  /** Whether a rule's role applies to a caller with `roles`. */
  predicate RoleApplies(rule: Rule, roles: set<string>) {
    rule.role in roles || rule.role == "*"
  }

  /** Whether a rule's permission characters cover `perm`. */
  predicate PermApplies(rule: Rule, perm: char) {
    '*' in rule.permChars || perm in rule.permChars
  }

  /** `_run_rule`: Some(decision) when the rule applies, None otherwise. */
  function RunRule(roles: set<string>, rule: Rule, perm: char): (d: Option<bool>)
    ensures !RoleApplies(rule, roles) ==> d == None
    ensures d.Some? <==> RoleApplies(rule, roles) && PermApplies(rule, perm)
    ensures d.Some? ==> (d.value <==> Lower(rule.action) == "allow")
  {
    var action := Lower(rule.action);
    if rule.role !in roles && rule.role != "*" then None
    else if '*' in rule.permChars || perm in rule.permChars then Some("allow" == action)
    else None
  }

  /** Rule `i` is the first rule of the list that decides. */
  predicate FirstDecider(rules: seq<Rule>, roles: set<string>, perm: char, i: int) {
    && 0 <= i < |rules|
    && RunRule(roles, rules[i], perm).Some?
    && forall j :: 0 <= j < i ==> RunRule(roles, rules[j], perm).None?
  }

  /** `_test` on a rule list: the decision of the first rule that decides. */
  function TestRules(rules: seq<Rule>, roles: set<string>, perm: char): (d: Option<bool>)
    ensures d.None? <==> forall i :: 0 <= i < |rules| ==> RunRule(roles, rules[i], perm).None?
    ensures d.Some? ==> exists i :: FirstDecider(rules, roles, perm, i) && RunRule(roles, rules[i], perm) == d
  {
    if |rules| == 0 then None
    else
      var d := RunRule(roles, rules[0], perm);
      if d.Some? then
        assert FirstDecider(rules, roles, perm, 0);
        d
      else
        var rest := TestRules(rules[1..], roles, perm);
        if rest.Some? then
          var i :| FirstDecider(rules[1..], roles, perm, i) && RunRule(roles, rules[1..][i], perm) == rest;
          DeciderShift(rules, roles, perm, i);
          rest
        else
          assert forall i :: 1 <= i < |rules| ==> rules[i] == rules[1..][i - 1];
          rest
  }

  /** A rule list whose first rule does not decide is decided one place
      further on than its tail. */
  lemma DeciderShift(rules: seq<Rule>, roles: set<string>, perm: char, i: int)
    requires |rules| > 0 && RunRule(roles, rules[0], perm).None?
    requires FirstDecider(rules[1..], roles, perm, i)
    ensures FirstDecider(rules, roles, perm, i + 1) && rules[i + 1] == rules[1..][i]
  {
    forall j | 0 < j < i + 1
      ensures RunRule(roles, rules[j], perm).None?
    {
      assert rules[j] == rules[1..][j - 1];
    }
  }

  /** One step of `_test`: the first rule decides, or the rest do. */
  lemma TestRulesStep(rules: seq<Rule>, roles: set<string>, perm: char)
    requires |rules| > 0
    ensures TestRules(rules, roles, perm) ==
              if RunRule(roles, rules[0], perm).Some? then RunRule(roles, rules[0], perm)
              else TestRules(rules[1..], roles, perm)
  {
  }

  /** The rule list configured for a path (empty when none is). */
  function RulesFor(cfg: Config, path: string): seq<Rule>
    requires WellFormed(cfg)
  {
    var v := GetValue(cfg, path, "rules", Rules([]));
    v.rules
  }

  /** `_test`: the decision of the rules configured for `path`. */
  function Test(cfg: Config, path: string, roles: set<string>, perm: char): Option<bool>
    requires WellFormed(cfg)
  {
    TestRules(RulesFor(cfg, path), roles, perm)
  }

  /** `cell_has_permission`: the cell's own rules first, then the routing
      path's, and deny when neither decides. */
  function CellHasPermission(cfg: Config, routingPath: string, cellName: string,
                             roles: set<string>, perm: char): (allowed: bool)
    requires WellFormed(cfg)
    ensures Test(cfg, cellName, roles, perm).Some? ==> allowed == Test(cfg, cellName, roles, perm).value
    ensures Test(cfg, cellName, roles, perm).None? && Test(cfg, routingPath, roles, perm).Some? ==>
              allowed == Test(cfg, routingPath, roles, perm).value
    ensures allowed ==> (Test(cfg, cellName, roles, perm) == Some(true) ||
                         (Test(cfg, cellName, roles, perm).None? && Test(cfg, routingPath, roles, perm) == Some(true)))
  {
    var allowed := Test(cfg, cellName, roles, perm);
    if allowed.Some? then allowed.value
    else
      var allowed' := Test(cfg, routingPath, roles, perm);
      if allowed'.Some? then allowed'.value
      else false
  }

  /** The routing path `cell_read_only` derives: the name cut at its last
      separator, or, with no separator, the name minus its last character
      (`rfind` returns -1 and `name[:-1]` drops one character). */
  function ParentPath(cellName: string): (p: string)
    ensures PathSep in cellName ==>
              |p| < |cellName| && cellName == p + [PathSep] + cellName[|p| + 1..] && PathSep !in cellName[|p| + 1..]
    ensures PathSep !in cellName && |cellName| > 0 ==> p == cellName[..|cellName| - 1]
    ensures |cellName| == 0 ==> p == ""
  {
    match RFind(cellName, PathSep)
    case Some(x) =>
      assert cellName == cellName[..x] + [PathSep] + cellName[x + 1..];
      cellName[..x]
    case None => if |cellName| > 0 then cellName[..|cellName| - 1] else ""
  }

  /** Truthiness of a configuration value. */
  predicate Truthy(v: ConfigValue) {
    match v
    case Rules(rs) => |rs| > 0
    case Flag(b) => b
    case Number(n) => n != 0
    case Text(t) => |t| > 0
  }

  /** `cell_read_only`, read for truthiness: the `read_only` entry when it
      is truthy or there is no request context, otherwise the `'r'`
      permission on the cell. */
  function CellReadOnly(cfg: Config, cellName: string, context: Option<set<string>>): (ro: bool)
    requires WellFormed(cfg)
    ensures cellName in cfg && "read_only" in cfg[cellName] && Truthy(cfg[cellName]["read_only"]) ==> ro
    ensures context.None? ==> (ro <==> cellName in cfg && "read_only" in cfg[cellName] && Truthy(cfg[cellName]["read_only"]))
    ensures context.Some? && !Truthy(GetValue(cfg, cellName, "read_only", Flag(false))) ==>
              ro == CellHasPermission(cfg, ParentPath(cellName), cellName, context.value, 'r')
  {
    var ro := GetValue(cfg, cellName, "read_only", Flag(false));
    if Truthy(ro) || context.None? then Truthy(ro)
    else CellHasPermission(cfg, ParentPath(cellName), cellName, context.value, 'r')
  }

  // ---------------------------------------------------------------------
  // Properties of the first-match policy.

  /** A rule that gives no decision can be inserted anywhere without
      changing the outcome. */
  lemma {:induction false} NonDecidingRuleIrrelevant(a: seq<Rule>, x: Rule, b: seq<Rule>, roles: set<string>, perm: char)
    requires RunRule(roles, x, perm).None?
    ensures TestRules(a + [x] + b, roles, perm) == TestRules(a + b, roles, perm)
  {
    if |a| == 0 {
      assert a + [x] + b == [x] + b;
      assert ([x] + b)[1..] == b;
      assert a + b == b;
    } else {
      assert (a + [x] + b)[1..] == a[1..] + [x] + b;
      assert (a + b)[1..] == a[1..] + b;
      NonDecidingRuleIrrelevant(a[1..], x, b, roles, perm);
    }
  }

  /** Rules that give no decision can be dropped from the front. */
  lemma {:induction false} NonDecidingPrefixIrrelevant(a: seq<Rule>, b: seq<Rule>, roles: set<string>, perm: char)
    requires forall i :: 0 <= i < |a| ==> RunRule(roles, a[i], perm).None?
    ensures TestRules(a + b, roles, perm) == TestRules(b, roles, perm)
  {
    if |a| == 0 {
      assert a + b == b;
    } else {
      assert (a + b)[1..] == a[1..] + b;
      NonDecidingPrefixIrrelevant(a[1..], b, roles, perm);
    }
  }

  /** Of two deciding rules, the earlier one wins whatever follows; a rule
      that does not decide, placed first, leaves the decision to `x`. */
  lemma FirstDecidingRuleWins(x: Rule, y: Rule, rest: seq<Rule>, roles: set<string>, perm: char)
    requires RunRule(roles, x, perm).Some?
    ensures TestRules([x, y] + rest, roles, perm) == RunRule(roles, x, perm)
    ensures RunRule(roles, y, perm).Some? ==> TestRules([y, x] + rest, roles, perm) == RunRule(roles, y, perm)
    ensures RunRule(roles, y, perm).None? ==> TestRules([y, x] + rest, roles, perm) == RunRule(roles, x, perm)
  {
    assert ([x, y] + rest)[0] == x;
    assert ([y, x] + rest)[0] == y;
    assert ([y, x] + rest)[1..] == [x] + rest;
    assert ([x] + rest)[0] == x;
  }

  /** When the cell's own rules decide, the routing path's rules are never
      consulted: replacing them changes nothing. */
  lemma CellRulesOverrideRoutingRules(cfg: Config, routingPath: string, cellName: string,
                                      roles: set<string>, perm: char, other: seq<Rule>)
    requires WellFormed(cfg)
    requires routingPath != cellName
    requires Test(cfg, cellName, roles, perm).Some?
    ensures var cfg' := cfg[routingPath := map["rules" := Rules(other)]];
            WellFormed(cfg') &&
            CellHasPermission(cfg', routingPath, cellName, roles, perm) == CellHasPermission(cfg, routingPath, cellName, roles, perm)
  {
    var cfg' := cfg[routingPath := map["rules" := Rules(other)]];
    assert RulesFor(cfg', cellName) == RulesFor(cfg, cellName);
  }

  /** Deny by default: when no rule of either list decides, the answer is no. */
  lemma DenyByDefault(cfg: Config, routingPath: string, cellName: string, roles: set<string>, perm: char)
    requires WellFormed(cfg)
    requires forall r :: r in RulesFor(cfg, cellName) ==> !(RoleApplies(r, roles) && PermApplies(r, perm))
    requires forall r :: r in RulesFor(cfg, routingPath) ==> !(RoleApplies(r, roles) && PermApplies(r, perm))
    ensures !CellHasPermission(cfg, routingPath, cellName, roles, perm)
  {
    var a := RulesFor(cfg, cellName);
    var b := RulesFor(cfg, routingPath);
    assert forall i :: 0 <= i < |a| ==> a[i] in a;
    assert forall i :: 0 <= i < |b| ==> b[i] in b;
  }

  /** A rule whose role is neither `*` nor one of the caller's roles never
      decides, whatever the permission asked for. */
  lemma ForeignRoleNeverDecides(rule: Rule, roles: set<string>, perm: char)
    requires rule.role != "*" && rule.role !in roles
    ensures RunRule(roles, rule, perm) == None
  {
  }

  /** A truthy `read_only` entry (`true`, `1`, `"yes"`, a non-empty list)
      wins over any role, with or without a context. */
  lemma ReadOnlyFlagWins(cfg: Config, cellName: string, context: Option<set<string>>)
    requires WellFormed(cfg)
    requires cellName in cfg && "read_only" in cfg[cellName] && Truthy(cfg[cellName]["read_only"])
    ensures CellReadOnly(cfg, cellName, context)
  {
  }

  /** Reading a key back after storing it under a path gives the stored
      value; every other path and key reads as before. */
  lemma GetValueAfterStore(cfg: Config, path: string, key: string, v: ConfigValue,
                           otherPath: string, otherKey: string, default: ConfigValue)
    ensures var cfg' := cfg[path := GetCellDict(cfg, path)[key := v]];
            && GetValue(cfg', path, key, default) == v
            && ((otherPath, otherKey) != (path, key) ==>
                  GetValue(cfg', otherPath, otherKey, default) == GetValue(cfg, otherPath, otherKey, default))
  {
  }

  /** A key the path's entry does not hold reads as the default, whatever
      the default; a key it holds reads the same under every default. */
  lemma GetValueDefault(cfg: Config, path: string, key: string, d1: ConfigValue, d2: ConfigValue)
    ensures key !in GetCellDict(cfg, path) ==> GetValue(cfg, path, key, d1) == d1
    ensures key in GetCellDict(cfg, path) ==> GetValue(cfg, path, key, d1) == GetValue(cfg, path, key, d2) == GetCellDict(cfg, path)[key]
  {
  }

  /** The parent path of a `parent!child` name is `parent`. */
  lemma ParentPathOfChild(parent: string, child: string)
    requires PathSep !in child
    ensures ParentPath(parent + [PathSep] + child) == parent
  {
    var name := parent + [PathSep] + child;
    assert name[|parent|] == PathSep;
    var p := ParentPath(name);
    LastSepUnique(name, p, name[|p| + 1..], parent, child);
  }

  /** A name splits in only one way around a separator that is followed by
      no other. */
  lemma LastSepUnique(name: string, p: string, tail: string, parent: string, child: string)
    requires name == p + [PathSep] + tail && PathSep !in tail
    requires name == parent + [PathSep] + child && PathSep !in child
    ensures p == parent
  {
    assert forall k :: |p| < k < |name| ==> name[k] == tail[k - |p| - 1];
    assert forall k :: |parent| < k < |name| ==> name[k] == child[k - |parent| - 1];
    assert name[|p|] == PathSep && name[|parent|] == PathSep;
    assert |p| == |parent|;
    assert p == name[..|p|] && parent == name[..|parent|];
  }
}

/** The rule set used by the cells configuration unit tests, with the
    outcomes those tests expect. */
module CellsConfigExamples {
  import opened Wrappers
  import opened Strings
  import opened CellsConfig

  const C1Rules := [Rule("somerole", "allow", "b"), Rule("somerole", "deny", "b"), Rule("reader", "allow", "r")]
  const C2Rules := [Rule("bofh", "deny", "b"), Rule("otherrole", "allow", "b")]
  const RegionRules := [Rule("privaterole", "allow", "b"), Rule("*", "deny", "b")]

  function TestConfig(): (cfg: Config)
    ensures WellFormed(cfg)
  {
    map[
      "region!c1" := map["rules" := Rules(C1Rules)],
      "region!c2" := map["rules" := Rules(C2Rules), "read_only" := Flag(true)],
      "region" := map["rules" := Rules(RegionRules)]
    ]
  }

  /** `get_cell_dict` of c2 holds its `rules`. */
  lemma GetCellExample()
    ensures "rules" in GetCellDict(TestConfig(), "region!c2")
  {
  }

  /** `get_value` of c2's `rules` starts with the `bofh` deny rule. */
  lemma GetValueExample()
    ensures var v := GetValue(TestConfig(), "region!c2", "rules", Text(""));
            v.Rules? && |v.rules| > 0 && v.rules[0] == Rule("bofh", "deny", "b")
  {
  }

  /** A key c2 does not hold reads as the default given. */
  lemma GetValueDefaultExample()
    ensures GetValue(TestConfig(), "region!c2", "key", Text("def")) == Text("def")
  {
  }

  /** A numeric `read_only` of 1 makes a cell read-only without consulting
      any rule. */
  lemma NumericReadOnlyExample()
    ensures var cfg := TestConfig()["region!c1" := map["rules" := Rules(C1Rules), "read_only" := Number(1)]];
            WellFormed(cfg) && CellReadOnly(cfg, "region!c1", Some({"somerole"}))
  {
  }

  /** The rule lists and flags of the configuration. */
  lemma Layout()
    ensures RulesFor(TestConfig(), "region!c1") == C1Rules
    ensures RulesFor(TestConfig(), "region!c2") == C2Rules
    ensures RulesFor(TestConfig(), "region!c3") == []
    ensures RulesFor(TestConfig(), "region") == RegionRules
    ensures GetValue(TestConfig(), "region!c1", "read_only", Flag(false)) == Flag(false)
  {
  }

  lemma LowerAllow()
    ensures Lower("allow") == "allow"
    ensures Lower("deny") == "deny"
  {
  }

  /** First matching rule wins: `somerole` is allowed on c1 although a later
      rule denies it. */
  lemma ShortCircuitExample()
    ensures CellHasPermission(TestConfig(), "region", "region!c1", {"somerole"}, 'b')
  {
    LowerAllow();
    Layout();
    TestRulesStep(C1Rules, {"somerole"}, 'b');
  }

  /** Every rule of a list is tried: `otherrole` matches the second c2 rule. */
  lemma RuleListExample()
    ensures CellHasPermission(TestConfig(), "region", "region!c2", {"otherrole"}, 'b')
  {
    LowerAllow();
    Layout();
    ForeignRoleNeverDecides(C2Rules[0], {"otherrole"}, 'b');
    TestRulesStep(C2Rules, {"otherrole"}, 'b');
    assert C2Rules[1..] == [Rule("otherrole", "allow", "b")];
    TestRulesStep(C2Rules[1..], {"otherrole"}, 'b');
  }

  /** c3 has no rules of its own, so the region's rules decide. */
  lemma RegionExample()
    ensures CellHasPermission(TestConfig(), "region", "region!c3", {"privaterole"}, 'b')
    ensures !CellHasPermission(TestConfig(), "region", "region!c3", {"deniedrole"}, 'b')
  {
    Layout();
    RegionAllowsPrivateRole();
    RegionDeniesOthers();
  }

  lemma RegionAllowsPrivateRole()
    ensures TestRules(RegionRules, {"privaterole"}, 'b') == Some(true)
  {
    LowerAllow();
    TestRulesStep(RegionRules, {"privaterole"}, 'b');
  }

  lemma RegionDeniesOthers()
    ensures TestRules(RegionRules, {"deniedrole"}, 'b') == Some(false)
  {
    LowerAllow();
    ForeignRoleNeverDecides(RegionRules[0], {"deniedrole"}, 'b');
    TestRulesStep(RegionRules, {"deniedrole"}, 'b');
    assert RegionRules[1..] == [Rule("*", "deny", "b")];
    TestRulesStep(RegionRules[1..], {"deniedrole"}, 'b');
  }

  /** c2 is read-only for every role. */
  lemma ReadOnlyAllExample()
    ensures CellReadOnly(TestConfig(), "region!c2", Some({"otherrole"}))
  {
  }

  /** `reader` holds the `'r'` permission on c1, so c1 reads as read-only. */
  lemma ReadOnlyByRoleExample()
    ensures CellReadOnly(TestConfig(), "region!c1", Some({"reader"}))
  {
    Layout();
    ParentPathOfChild("region", "c1");
    assert "region" + [PathSep] + "c1" == "region!c1";
    ReaderOnC1();
  }

  /** Only the third c1 rule speaks to `reader` asking for `'r'`. */
  lemma ReaderOnC1()
    ensures TestRules(C1Rules, {"reader"}, 'r') == Some(true)
  {
    LowerAllow();
    var rs := C1Rules;
    ForeignRoleNeverDecides(rs[0], {"reader"}, 'r');
    ForeignRoleNeverDecides(rs[1], {"reader"}, 'r');
    assert rs[1..][0] == rs[1] && rs[1..][1..] == [Rule("reader", "allow", "r")];
    TestRulesStep(rs, {"reader"}, 'r');
    TestRulesStep(rs[1..], {"reader"}, 'r');
    TestRulesStep(rs[1..][1..], {"reader"}, 'r');
  }
}
