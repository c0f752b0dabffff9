/** The flow-string builders of the XenServer Open vSwitch script
    (plugins/xenserver/networking/etc/xensource/scripts/rs_ovs_configure_vif_flows.py):
    the cookie that tags a VIF's flows, flow fragments, flows, flow groups
    and the flow manager's text. Running `ovs-ofctl` is not modelled; the
    strings handed to it are. */
module OvsFlows {
  import opened Wrappers
  import opened Strings
  import opened Bits
  import Seqs

  // `PRIORITIES`
  const PriorityDrop := 50
  const PriorityBroadcast := 75
  const PriorityBase := 100
  const PriorityPortSecurity := 110
  const PrioritySecurityGroup := 120
  const PriorityRackConnect := 130
  const PriorityDefault := 150

  const DataMarker := "cookie"

  /** The cookie holds the domain id in its low 16 bits and the VIF id in
      the 4 bits above them. */
  const DomIdMask := 65535
  const VifIdMask := 983040

  lemma MaskLayout()
    ensures Pow2(4) == 16 && Pow2(16) == 65536 && Pow2(20) == 1048576
    ensures DomIdMask == Pow2(16) - 1
    ensures VifIdMask == (Pow2(4) - 1) * Pow2(16)
  {
    assert Pow2(4) == 16;
    Pow2Add(4, 4);
    Pow2Add(8, 8);
    Pow2Add(16, 4);
  }

  /** `get_marker_fragment`'s cookie: `dom_id + (vif_id << 16)`. */
  function MarkerCookie(domId: nat, vifId: nat): (c: nat)
    ensures domId < 65536 ==> c % 65536 == domId && c / 65536 == vifId
  {
    domId + vifId * 65536
  }

  /** Masking the cookie recovers both ids, as long as they fit their
      fields (16 bits for the domain, 4 for the VIF). */
  lemma CookieFieldsRecovered(domId: nat, vifId: nat)
    requires domId < 65536 && vifId < 16
    ensures And(MarkerCookie(domId, vifId), DomIdMask) == domId
    ensures Shr(And(MarkerCookie(domId, vifId), VifIdMask), 16) == vifId
  {
    DomIdRecovered(domId, vifId);
    VifIdRecovered(domId, vifId);
  }

  lemma DomIdRecovered(domId: nat, vifId: nat)
    requires domId < 65536
    ensures And(MarkerCookie(domId, vifId), DomIdMask) == domId
  {
    MaskLayout();
    AndLowMask(MarkerCookie(domId, vifId), 16);
  }

  lemma VifIdRecovered(domId: nat, vifId: nat)
    requires domId < 65536 && vifId < 16
    ensures Shr(And(MarkerCookie(domId, vifId), VifIdMask), 16) == vifId
  {
    MaskLayout();
    assert MarkerCookie(domId, vifId) == vifId * Pow2(16) + domId;
    AndField(domId, vifId, 16, 4, 15);
    ShrOfShifted(vifId, 16);
  }

  /** The mask `clear_flows` matches with: both fields together. */
  function ClearMask(): (m: nat)
    ensures m == Pow2(20) - 1
  {
    MaskLayout();
    OrDisjoint(DomIdMask, 15, 16);
    Or(DomIdMask, VifIdMask)
  }

  /** A cookie whose ids fit their fields is left whole by the mask, so the
      `del-flows` match selects exactly the flows of that VIF. */
  lemma ClearMaskCoversCookie(domId: nat, vifId: nat)
    requires domId < 65536 && vifId < 16
    ensures And(MarkerCookie(domId, vifId), ClearMask()) == MarkerCookie(domId, vifId)
  {
    MaskLayout();
    AndLowMaskFits(MarkerCookie(domId, vifId), 20);
  }

  // Fragments

  /** `OvsFragment` renders `key=value`; `OvsActionFragment` `key:value`. */
  datatype Style = Match | Action

  function Separator(style: Style): char {
    if style == Match then '=' else ':'
  }

  /** `style` given by name to `add_fragment`: "action" in any case picks
      the action style, anything else the plain one. */
  function StyleNamed(name: string): Style {
    if Lower(name) == "action" then Action else Match
  }

  /** A fragment value: a number (priorities, cookies, ports) or text. */
  datatype Value = Num(n: int) | Text(s: string)

  /** `str(value)` */
  function ValueString(v: Value): string {
    match v
    case Num(n) => IntToString(n)
    case Text(s) => s
  }

  datatype Fragment = Fragment(style: Style, key: string, value: Option<Value>)

  /** `OvsFragment.__str__`: the key alone, or key, separator and value. */
  function Render(f: Fragment): (s: string)
    ensures f.value.None? ==> s == f.key
    ensures f.value.Some? ==> s == f.key + [Separator(f.style)] + ValueString(f.value.value)
  {
    match f.value
    case None => f.key
    case Some(v) => f.key + [Separator(f.style)] + ValueString(v)
  }

  /** Building a fragment from a dictionary: `popitem` on an empty one
      raises KeyError, more than one key raises ValueError. */
  datatype FragmentError = EmptyDict | TooManyKeys(count: nat)

  /** A dictionary literal, as its entries. */
  type Entries = seq<(string, Option<Value>)>

  function FromDict(entries: Entries, style: Style): (r: Result<Fragment, FragmentError>)
    ensures r.Ok? <==> |entries| == 1
    ensures r.Ok? ==> r.value == Fragment(style, entries[0].0, entries[0].1)
    ensures |entries| == 0 ==> r == Err(EmptyDict)
  {
    if |entries| > 1 then Err(TooManyKeys(|entries|))
    else if |entries| == 0 then Err(EmptyDict)
    else Ok(Fragment(style, entries[0].0, entries[0].1))
  }

  /** The string branch of `add_fragment`: split at the first `=`, or
      failing that at the first `:`, or keep the whole string as the key. */
  function Parse(s: string, style: Style): (f: Fragment)
    ensures f.style == style
  {
    match Find(s, '=')
    case Some(i) => Fragment(style, s[..i], Some(Text(s[i + 1..])))
    case None =>
      match Find(s, ':')
      case Some(i) => Fragment(style, s[..i], Some(Text(s[i + 1..])))
      case None => Fragment(style, s, None)
  }

  /** The three shapes `Parse` produces: split at the first `=`, else at the
      first `:`, else the whole string as a bare key. */
  lemma ParseSplits(s: string, style: Style)
    ensures var f := Parse(s, style);
            '=' in s ==>
              f.value.Some? && f.value.value.Text? && '=' !in f.key && s == f.key + "=" + f.value.value.s
    ensures var f := Parse(s, style);
            '=' !in s && ':' in s ==>
              f.value.Some? && f.value.value.Text? && ':' !in f.key && s == f.key + ":" + f.value.value.s
    ensures '=' !in s && ':' !in s ==> Parse(s, style) == Fragment(style, s, None)
  {
    match Find(s, '=')
    case Some(i) =>
      assert s == s[..i] + "=" + s[i + 1..];
    case None =>
      match Find(s, ':')
      case Some(i) =>
        assert s == s[..i] + ":" + s[i + 1..];
      case None =>
  }

  /** With the plain style, rendering a parsed string gives it back exactly
      when it has an `=` or no separator at all: a lone `:` comes back as
      `=`. */
  lemma ParseRenderRoundTrip(s: string)
    ensures Render(Parse(s, Match)) == s <==> '=' in s || ':' !in s
  {
    ParseSplits(s, Match);
    var f := Parse(s, Match);
    if '=' !in s && ':' in s {
      var k, v := f.key, f.value.value.s;
      assert s == k + ":" + v;
      assert Render(f) == k + "=" + v;
      assert Render(f)[|k|] == '=' != s[|k|];
    }
  }

  /** With the action style the same holds for `:`, provided there is no
      `=` to split at first. */
  lemma ParseRenderRoundTripAction(s: string)
    requires '=' !in s
    ensures Render(Parse(s, Action)) == s
  {
    ParseSplits(s, Action);
  }

  /** A `key:value` string without `=` is rewritten as `key=value`. */
  lemma ColonRewritten(k: string, v: string)
    requires ':' !in k && '=' !in k && '=' !in v
    ensures Render(Parse(k + ":" + v, Match)) == k + "=" + v
  {
    var s := k + ":" + v;
    ParseSplits(s, Match);
    FirstSeparator(k, ':', v);
    assert s[..|k|] == k && s[|k| + 1..] == v;
    assert '=' !in s by {
      assert forall i :: 0 <= i < |s| ==> s[i] == if i < |k| then k[i] else if i == |k| then ':' else v[i - |k| - 1];
    }
  }

  /** A fragment whose key holds no separator is read back from its text. */
  lemma RenderParseRoundTrip(f: Fragment)
    requires '=' !in f.key && ':' !in f.key
    requires f.value.Some? ==> f.value.value.Text?
    requires f.style == Action && f.value.Some? ==> '=' !in f.value.value.s
    ensures Parse(Render(f), f.style) == f
  {
    var s := Render(f);
    if f.value.Some? {
      var v := f.value.value.s;
      var sep := Separator(f.style);
      assert s == f.key + [sep] + v;
      assert s[..|f.key|] == f.key;
      FirstSeparator(f.key, sep, v);
      if f.style == Action {
        assert '=' !in s by {
          assert s == f.key + ([':'] + v);
        }
      }
    }
  }

  /** The first `sep` of `k + [sep] + v` is the one after `k` when `k` has none. */
  lemma FirstSeparator(k: string, sep: char, v: string)
    requires sep !in k
    ensures Find(k + [sep] + v, sep) == Some(|k|)
  {
    var s := k + [sep] + v;
    assert s[|k|] == sep;
    assert s[..|k|] == k;
    assert forall i :: 0 <= i < |k| ==> s[i] == k[i];
  }

  // Flows

  /** What `add_fragment` accepts: a one-entry dictionary, a ready-made
      fragment, or a string to parse. */
  datatype FragmentInput = DictInput(entries: Entries) | Ready(f: Fragment) | Str(s: string)

  /** The fragment one input becomes; a dictionary always becomes a plain
      `OvsFragment`, whatever the style. */
  function Convert(input: FragmentInput, style: Style): (r: Result<Fragment, FragmentError>)
    ensures r.Err? <==> input.DictInput? && |input.entries| != 1
  {
    match input
    case DictInput(entries) => FromDict(entries, Match)
    case Ready(f) => Ok(f)
    case Str(s) => Ok(Parse(s, style))
  }

  /** The fragments a run of inputs becomes, or the first error. */
  function ConvertAll(inputs: seq<FragmentInput>, style: Style): (r: Result<seq<Fragment>, FragmentError>)
    ensures r.Ok? <==> forall i :: 0 <= i < |inputs| ==> Convert(inputs[i], style).Ok?
    ensures r.Ok? ==> |r.value| == |inputs|
    ensures r.Ok? ==> forall i :: 0 <= i < |inputs| ==> r.value[i] == Convert(inputs[i], style).value
  {
    if |inputs| == 0 then Ok([])
    else match Convert(inputs[0], style)
      case Err(e) => Err(e)
      case Ok(f) =>
        match ConvertAll(inputs[1..], style)
        case Err(e) =>
          assert forall i :: 0 <= i < |inputs[1..]| ==> inputs[1..][i] == inputs[i + 1];
          Err(e)
        case Ok(fs) => Ok([f] + fs)
  }

  /** Converting two runs one after the other. */
  lemma ConvertAllConcat(a: seq<FragmentInput>, b: seq<FragmentInput>, style: Style)
    ensures ConvertAll(a + b, style).Ok? <==> ConvertAll(a, style).Ok? && ConvertAll(b, style).Ok?
    ensures ConvertAll(a + b, style).Ok? ==>
              ConvertAll(a + b, style).value == ConvertAll(a, style).value + ConvertAll(b, style).value
  {
    ConcatOk(a, b, style);
    if ConvertAll(a + b, style).Ok? {
      ConcatValue(a, b, style);
    }
  }

  lemma {:induction false} ConcatOk(a: seq<FragmentInput>, b: seq<FragmentInput>, style: Style)
    ensures ConvertAll(a + b, style).Ok? <==> ConvertAll(a, style).Ok? && ConvertAll(b, style).Ok?
  {
    if |a| == 0 {
      assert a + b == b;
    } else {
      ConcatOk(a[1..], b, style);
      assert (a + b)[0] == a[0] && (a + b)[1..] == a[1..] + b;
      ConvertAllStep(a + b, style);
      ConvertAllStep(a, style);
    }
  }

  lemma ConcatValue(a: seq<FragmentInput>, b: seq<FragmentInput>, style: Style)
    requires ConvertAll(a, style).Ok? && ConvertAll(b, style).Ok?
    requires ConvertAll(a + b, style).Ok?
    ensures ConvertAll(a + b, style).value == ConvertAll(a, style).value + ConvertAll(b, style).value
  {
    var l, va, vb := ConvertAll(a + b, style).value, ConvertAll(a, style).value, ConvertAll(b, style).value;
    forall i | 0 <= i < |a|
      ensures l[i] == va[i]
    {
      ConcatValueLeft(a, b, style, i);
    }
    forall j | 0 <= j < |b|
      ensures l[|a| + j] == vb[j]
    {
      ConcatValueRight(a, b, style, j);
    }
    Seqs.ConcatByIndex(l, va, vb);
  }

  lemma ConcatValueLeft(a: seq<FragmentInput>, b: seq<FragmentInput>, style: Style, i: int)
    requires ConvertAll(a, style).Ok? && ConvertAll(a + b, style).Ok?
    requires 0 <= i < |a|
    ensures ConvertAll(a + b, style).value[i] == ConvertAll(a, style).value[i]
  {
    assert (a + b)[i] == a[i];
  }

  lemma ConcatValueRight(a: seq<FragmentInput>, b: seq<FragmentInput>, style: Style, j: int)
    requires ConvertAll(b, style).Ok? && ConvertAll(a + b, style).Ok?
    requires 0 <= j < |b|
    ensures ConvertAll(a + b, style).value[|a| + j] == ConvertAll(b, style).value[j]
  {
    assert (a + b)[|a| + j] == b[j];
  }

  /** One step of `ConvertAll`. */
  lemma ConvertAllStep(inputs: seq<FragmentInput>, style: Style)
    requires |inputs| > 0
    ensures ConvertAll(inputs, style).Ok? <==>
              Convert(inputs[0], style).Ok? && ConvertAll(inputs[1..], style).Ok?
    ensures ConvertAll(inputs, style).Ok? ==>
              ConvertAll(inputs, style).value == [Convert(inputs[0], style).value] + ConvertAll(inputs[1..], style).value
  {
  }

  type Flow = seq<Fragment>

  /** `OvsFlow.add_fragment` */
  function AddFragment(flow: Flow, input: FragmentInput, style: Style): Result<Flow, FragmentError> {
    match Convert(input, style)
    case Ok(f) => Ok(flow + [f])
    case Err(e) => Err(e)
  }

  /** `OvsFlow.add`: the inputs one at a time, with the plain style; the
      first bad dictionary stops it. */
  function Add(flow: Flow, inputs: seq<FragmentInput>): (r: Result<Flow, FragmentError>)
    ensures r.Ok? <==> ConvertAll(inputs, Match).Ok?
    ensures r.Ok? ==> r.value == flow + ConvertAll(inputs, Match).value
    decreases |inputs|
  {
    if |inputs| == 0 then Ok(flow)
    else match AddFragment(flow, inputs[0], Match)
      case Err(e) => Err(e)
      case Ok(flow') =>
        ConvertAllStep(inputs, Match);
        Add(flow', inputs[1..])
  }

  /** The fragments of a flow, each as text. */
  function RenderedFragments(flow: Flow): (parts: seq<string>)
    ensures |parts| == |flow|
    ensures forall i :: 0 <= i < |flow| ==> parts[i] == Render(flow[i])
  {
    seq(|flow|, i requires 0 <= i < |flow| => Render(flow[i]))
  }

  /** `OvsFlow.__str__`: the fragments joined by commas. */
  function RenderFlow(flow: Flow): string {
    Join(RenderedFragments(flow), ',')
  }

  /** A flow's text splits back into its fragments' texts when none of
      them holds a comma. */
  lemma FlowFieldsRecoverable(flow: Flow)
    requires |flow| > 0
    requires forall i :: 0 <= i < |flow| ==> ',' !in Render(flow[i])
    ensures Split(RenderFlow(flow), ',') == RenderedFragments(flow)
  {
    SplitJoin(RenderedFragments(flow), ',');
  }

  // Flow groups

  /** An `OvsFlowGroup`: every flow added gets the group's priority, its
      cookie when a domain is set, and the forced fragments. */
  datatype Group = Group(forced: seq<FragmentInput>, priority: int, domId: Option<nat>, vifId: nat, flows: seq<Flow>)

  /** The constructor, with its defaults: the default priority, no domain
      and VIF 0. */
  function NewGroup(forced: seq<FragmentInput>, priority: Option<int>, domId: Option<nat>, vifId: Option<nat>): (g: Group)
    ensures g.flows == [] && g.forced == forced && g.domId == domId
    ensures g.priority == priority.GetOr(PriorityDefault) && g.vifId == vifId.GetOr(0)
  {
    Group(forced, priority.GetOr(PriorityDefault), domId, vifId.GetOr(0), [])
  }

  /** The fragments every flow of the group starts with. */
  function Header(g: Group): (h: Flow)
    ensures |h| == if g.domId.Some? then 2 else 1
    ensures h[0] == Fragment(Match, "priority", Some(Num(g.priority)))
    ensures g.domId.Some? ==> h[1] == Fragment(Match, DataMarker, Some(Num(MarkerCookie(g.domId.value, g.vifId))))
  {
    var priority := FromDict([("priority", Some(Num(g.priority)))], Match).value;
    if g.domId.Some? then
      [priority, FromDict([(DataMarker, Some(Num(MarkerCookie(g.domId.value, g.vifId))))], Match).value]
    else [priority]
  }

  /** `OvsFlowGroup.add`: one new flow of header, forced fragments and the
      given fragments, in that order; nothing is added on an error. */
  function GroupAdd(g: Group, fragments: seq<FragmentInput>): (r: Result<Group, FragmentError>)
    ensures r.Ok? ==> r.value == g.(flows := r.value.flows)
    ensures r.Ok? ==> |r.value.flows| == |g.flows| + 1 && r.value.flows[..|g.flows|] == g.flows
  {
    match Add(Header(g), g.forced + fragments)
    case Ok(flow) =>
      assert (g.flows + [flow])[..|g.flows|] == g.flows;
      Ok(g.(flows := g.flows + [flow]))
    case Err(e) => Err(e)
  }

  /** The flow `GroupAdd` appends: the header, then the forced fragments,
      then the given ones, each in order. */
  lemma GroupAddLayout(g: Group, fragments: seq<FragmentInput>)
    ensures GroupAdd(g, fragments).Ok? <==> ConvertAll(g.forced, Match).Ok? && ConvertAll(fragments, Match).Ok?
    ensures GroupAdd(g, fragments).Ok? ==>
              GroupAdd(g, fragments).value.flows[|g.flows|]
              == Header(g) + ConvertAll(g.forced, Match).value + ConvertAll(fragments, Match).value
  {
    ConvertAllConcat(g.forced, fragments, Match);
  }

  /** The flows of a group or manager, each as text. */
  function RenderedFlows(flows: seq<Flow>): (lines: seq<string>)
    ensures |lines| == |flows|
    ensures forall i :: 0 <= i < |flows| ==> lines[i] == RenderFlow(flows[i])
  {
    seq(|flows|, i requires 0 <= i < |flows| => RenderFlow(flows[i]))
  }

  /** `OvsFlowGroup.__str__`: one flow per line. */
  function RenderGroup(g: Group): string {
    Join(RenderedFlows(g.flows), '\n')
  }

  /** A group's text splits back into its flows' texts when none of them
      holds a line break. */
  lemma GroupLinesRecoverable(g: Group)
    requires |g.flows| > 0
    requires forall i :: 0 <= i < |g.flows| ==> '\n' !in RenderFlow(g.flows[i])
    ensures Split(RenderGroup(g), '\n') == RenderedFlows(g.flows)
  {
    SplitJoin(RenderedFlows(g.flows), '\n');
  }

  /** Every flow a group adds carries the group's priority first and, when
      the group has a domain, the cookie from which the masks read the
      domain and VIF ids back. */
  lemma AddedFlowCarriesIds(g: Group, fragments: seq<FragmentInput>)
    requires GroupAdd(g, fragments).Ok?
    ensures var flow := GroupAdd(g, fragments).value.flows[|g.flows|];
            && |flow| >= 1
            && flow[0] == Fragment(Match, "priority", Some(Num(g.priority)))
            && (g.domId.Some? ==> |flow| >= 2 && flow[1] == Fragment(Match, DataMarker, Some(Num(MarkerCookie(g.domId.value, g.vifId)))))
    ensures g.domId.Some? && g.domId.value < 65536 && g.vifId < 16 ==>
              var c := MarkerCookie(g.domId.value, g.vifId);
              And(c, DomIdMask) == g.domId.value && Shr(And(c, VifIdMask), 16) == g.vifId
  {
    GroupAddLayout(g, fragments);
    if g.domId.Some? && g.domId.value < 65536 && g.vifId < 16 {
      CookieFieldsRecovered(g.domId.value, g.vifId);
    }
  }

  /** A new group holds no flow; after its first successful add it renders
      as that one flow, which starts with the given priority or 150. */
  lemma NewGroupFirstFlow(forced: seq<FragmentInput>, priority: Option<int>, domId: Option<nat>,
                          vifId: Option<nat>, fragments: seq<FragmentInput>)
    requires GroupAdd(NewGroup(forced, priority, domId, vifId), fragments).Ok?
    ensures var g := GroupAdd(NewGroup(forced, priority, domId, vifId), fragments).value;
            && |g.flows| == 1
            && RenderGroup(g) == RenderFlow(g.flows[0])
            && g.flows[0][0] == Fragment(Match, "priority", Some(Num(priority.GetOr(PriorityDefault))))
  {
    var g0 := NewGroup(forced, priority, domId, vifId);
    AddedFlowCarriesIds(g0, fragments);
    var g := GroupAdd(g0, fragments).value;
    assert RenderedFlows(g.flows) == [RenderFlow(g.flows[0])];
  }

  // The flow manager

  /** `OvsFlowManager.__str__`: one group per line, each group being its
      own lines. */
  function RenderManager(groups: seq<Group>): string {
    Join(GroupTexts(groups), '\n')
  }

  /** Each group as text. */
  function GroupTexts(groups: seq<Group>): (texts: seq<string>)
    ensures |texts| == |groups|
    ensures forall i :: 0 <= i < |groups| ==> texts[i] == RenderGroup(groups[i])
  {
    seq(|groups|, i requires 0 <= i < |groups| => RenderGroup(groups[i]))
  }

  /** All flows of the groups, group after group. */
  function AllFlows(groups: seq<Group>): seq<Flow> {
    if |groups| == 0 then [] else groups[0].flows + AllFlows(groups[1..])
  }

  /** When no group is empty, the manager's text is one line per flow, in
      group order: what `flush` feeds to `ovs-ofctl add-flow`. */
  lemma {:induction false} ManagerOneFlowPerLine(groups: seq<Group>)
    requires forall i :: 0 <= i < |groups| ==> |groups[i].flows| > 0
    ensures RenderManager(groups) == Join(RenderedFlows(AllFlows(groups)), '\n')
  {
    if |groups| > 1 {
      var rest := groups[1..];
      ManagerOneFlowPerLine(rest);
      AllFlowsNonEmpty(rest);
      ManagerStep(groups[0], rest);
      assert groups == [groups[0]] + rest;
    } else if |groups| == 1 {
      assert AllFlows(groups) == groups[0].flows + AllFlows([]);
      assert AllFlows(groups) == groups[0].flows;
      assert GroupTexts(groups) == [RenderGroup(groups[0])];
    }
  }

  /** One group in front of the others adds its lines in front. */
  lemma ManagerStep(first: Group, rest: seq<Group>)
    requires |first.flows| > 0 && |rest| > 0 && |AllFlows(rest)| > 0
    requires RenderManager(rest) == Join(RenderedFlows(AllFlows(rest)), '\n')
    ensures RenderManager([first] + rest) == Join(RenderedFlows(AllFlows([first] + rest)), '\n')
  {
    var groups := [first] + rest;
    assert groups[1..] == rest;
    assert AllFlows(groups) == first.flows + AllFlows(rest);
    assert GroupTexts(groups) == [RenderGroup(first)] + GroupTexts(rest);
    JoinCons(RenderGroup(first), GroupTexts(rest), '\n');
    RenderedFlowsConcat(first.flows, AllFlows(rest));
    JoinConcat(RenderedFlows(first.flows), RenderedFlows(AllFlows(rest)), '\n');
  }

  lemma RenderedFlowsConcat(a: seq<Flow>, b: seq<Flow>)
    ensures RenderedFlows(a + b) == RenderedFlows(a) + RenderedFlows(b)
  {
    var l, r := RenderedFlows(a + b), RenderedFlows(a) + RenderedFlows(b);
    forall i | 0 <= i < |l|
      ensures l[i] == r[i]
    {
      if i >= |a| {
        assert (a + b)[i] == b[i - |a|];
      }
    }
  }

  lemma {:induction false} AllFlowsNonEmpty(groups: seq<Group>)
    requires |groups| > 0 && |groups[0].flows| > 0
    ensures |AllFlows(groups)| > 0
  {
  }

  /** `clear_flows`: the fragment naming every flow of one VIF, as
      `cookie=<cookie>/<mask>`. */
  function ClearFlowsMarker(domId: nat, vifId: nat): string {
    var value := NatToString(MarkerCookie(domId, vifId)) + "/" + NatToString(ClearMask());
    Render(FromDict([(DataMarker, Some(Text(value)))], Match).value)
  }

  /** The marker's text, with the mask written out. */
  lemma ClearFlowsMarkerText(domId: nat, vifId: nat)
    ensures ClearFlowsMarker(domId, vifId) == "cookie=" + NatToString(MarkerCookie(domId, vifId)) + "/1048575"
  {
    var c := NatToString(MarkerCookie(domId, vifId));
    MarkerRender(c + "/" + NatToString(ClearMask()));
    assert ClearFlowsMarker(domId, vifId) == "cookie=" + (c + "/" + NatToString(ClearMask()));
    MaskText();
    MarkerWithMask(c, NatToString(ClearMask()));
  }

  lemma MarkerWithMask(c: string, m: string)
    requires m == "1048575"
    ensures "cookie=" + (c + "/" + m) == "cookie=" + c + "/1048575"
  {
  }

  lemma MaskText()
    ensures NatToString(ClearMask()) == "1048575"
  {
    MaskLayout();
    MaskDigits();
  }

  lemma MarkerRender(v: string)
    ensures Render(FromDict([(DataMarker, Some(Text(v)))], Match).value) == "cookie=" + v
  {
  }

  lemma MaskDigits()
    ensures NatToString(1048575) == "1048575"
  {
    AppendDigit(1, "1", 0);
    AppendDigit(10, "10", 4);
    AppendDigit(104, "104", 8);
    AppendDigit(1048, "1048", 5);
    AppendDigit(10485, "10485", 7);
    AppendDigit(104857, "104857", 5);
  }

  /** One more decimal digit on the right. */
  lemma AppendDigit(n: nat, s: string, d: nat)
    requires 0 < n && d < 10 && NatToString(n) == s
    ensures NatToString(10 * n + d) == s + [DigitChar(d)]
  {
    DivAddMultiple(n, d, 10);
    assert (10 * n + d) / 10 == n && (10 * n + d) % 10 == d by {
      assert 10 * n + d == n * 10 + d;
    }
  }
}

module OvsFlowsExamples {
  import opened Wrappers
  import opened Strings
  import opened OvsFlows

  /** `get_default_drop`: one flow that drops everything at the drop
      priority, tagged with domain 0's cookie. */
  lemma DefaultDropFlow()
    ensures var g := NewGroup([], Some(PriorityDrop), Some(0), None);
            GroupAdd(g, [DictInput([("actions", Some(Text("drop")))])]).Ok?
            && RenderGroup(GroupAdd(g, [DictInput([("actions", Some(Text("drop")))])]).value)
               == "priority=50,cookie=0,actions=drop"
  {
    var g := NewGroup([], Some(PriorityDrop), Some(0), None);
    var inputs := [DictInput([("actions", Some(Text("drop")))])];
    DropGroupFlows(g, inputs);
    OneFlowGroupText(GroupAdd(g, inputs).value, DropFlow());
    DropFlowText();
  }

  lemma DropGroupFlows(g: Group, inputs: seq<FragmentInput>)
    requires g == NewGroup([], Some(PriorityDrop), Some(0), None)
    requires inputs == [DictInput([("actions", Some(Text("drop")))])]
    ensures GroupAdd(g, inputs).Ok? && GroupAdd(g, inputs).value.flows == [DropFlow()]
  {
    var flow := DropFlow();
    GroupAddLayout(g, inputs);
    assert ConvertAll(inputs, Match).value == [flow[2]];
    assert ConvertAll([], Match).value == [];
    assert Header(g) == flow[..2];
    assert Header(g) + [] + [flow[2]] == flow;
  }

  lemma OneFlowGroupText(g: Group, flow: Flow)
    requires g.flows == [flow]
    ensures RenderGroup(g) == RenderFlow(flow)
  {
    assert RenderedFlows(g.flows) == [RenderFlow(flow)];
  }

  function DropFlow(): Flow {
    [Fragment(Match, "priority", Some(Num(50))), Fragment(Match, "cookie", Some(Num(0))),
     Fragment(Match, "actions", Some(Text("drop")))]
  }

  lemma DropFlowText()
    ensures RenderFlow(DropFlow()) == "priority=50,cookie=0,actions=drop"
  {
    var f := DropFlow();
    var parts := RenderedFragments(f);
    assert parts == [Render(f[0]), Render(f[1]), Render(f[2])];
    DropFragmentTexts();
    JoinThree("priority=50", "cookie=0", "actions=drop", ',');
  }

  lemma DropFragmentTexts()
    ensures Render(Fragment(Match, "priority", Some(Num(50)))) == "priority=50"
    ensures Render(Fragment(Match, "cookie", Some(Num(0)))) == "cookie=0"
    ensures Render(Fragment(Match, "actions", Some(Text("drop")))) == "actions=drop"
  {
    assert IntToString(50) == NatToString(5) + "0" == "50";
    assert IntToString(0) == "0";
  }

  lemma JoinThree(a: string, b: string, c: string, sep: char)
    ensures Join([a, b, c], sep) == a + [sep] + b + [sep] + c
  {
    JoinCons(a, [b, c], sep);
    JoinCons(b, [c], sep);
    assert [a, b, c] == [a] + [b, c] && [b, c] == [b] + [c];
  }
}
