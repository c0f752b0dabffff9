/** nova/scheduler/consumers/network.py: charging an instance's network
    bandwidth to the host it is placed on. A host's `extra_resources` and a
    flavor's `extra_specs` are modelled as maps from key to integer; a
    flavor without `extra_specs` has the empty map. */
module NetworkConsumer {

  const Requested := "network_mbps"
  const Used := "network_used_mbps"

  /** The bandwidth a flavor asks for; 0 when it names none. */
  function Demand(extraSpecs: map<string, int>): int {
    if Requested in extraSpecs then extraSpecs[Requested] else 0
  }

  /** The used bandwidth a host reports; 0 when it reports none. */
  function UsedBy(extraResources: map<string, int>): int {
    if Used in extraResources then extraResources[Used] else 0
  }

  /** `consume_from_instance` as written: the charge is skipped when the
      flavor asks for nothing, and also whenever the host's used figure is
      missing or zero. Only the used figure can change. */
  function ConsumeFromInstance(extraResources: map<string, int>, extraSpecs: map<string, int>): (r: map<string, int>)
    ensures r.Keys == extraResources.Keys
    ensures forall k :: k in r && k != Used ==> r[k] == extraResources[k]
    ensures Demand(extraSpecs) == 0 || UsedBy(extraResources) == 0 ==> r == extraResources
    ensures UsedBy(extraResources) != 0 ==> UsedBy(r) == UsedBy(extraResources) + Demand(extraSpecs)
  {
    if Demand(extraSpecs) == 0 then extraResources
    else if UsedBy(extraResources) != 0 then extraResources[Used := extraResources[Used] + Demand(extraSpecs)]
    else extraResources
  }

  /** The evident intent: every host that tracks its used bandwidth is
      charged, including one whose used figure is still zero. */
  function ConsumeFromInstanceCorrected(extraResources: map<string, int>, extraSpecs: map<string, int>): (r: map<string, int>)
    ensures r.Keys == extraResources.Keys
    ensures forall k :: k in r && k != Used ==> r[k] == extraResources[k]
    ensures Used in extraResources ==> UsedBy(r) == UsedBy(extraResources) + Demand(extraSpecs)
    ensures Used !in extraResources ==> r == extraResources
  {
    if Demand(extraSpecs) != 0 && Used in extraResources then
      extraResources[Used := extraResources[Used] + Demand(extraSpecs)]
    else extraResources
  }

  /** Total bandwidth asked for by a run of flavors. */
  function TotalDemand(specs: seq<map<string, int>>): int {
    if |specs| == 0 then 0 else Demand(specs[0]) + TotalDemand(specs[1..])
  }

  /** Placing instances of the given flavors on one host, one after another. */
  function ConsumeAll(extraResources: map<string, int>, specs: seq<map<string, int>>): map<string, int> {
    if |specs| == 0 then extraResources
    else ConsumeAll(ConsumeFromInstance(extraResources, specs[0]), specs[1..])
  }

  function ConsumeAllCorrected(extraResources: map<string, int>, specs: seq<map<string, int>>): map<string, int> {
    if |specs| == 0 then extraResources
    else ConsumeAllCorrected(ConsumeFromInstanceCorrected(extraResources, specs[0]), specs[1..])
  }

  /** As written, a host whose used figure starts at zero stays at zero
      however many instances land on it. */
  lemma {:induction false} ZeroUsedNeverCharged(extraResources: map<string, int>, specs: seq<map<string, int>>)
    requires UsedBy(extraResources) == 0
    ensures ConsumeAll(extraResources, specs) == extraResources
  {
    if |specs| > 0 {
      ZeroUsedNeverCharged(ConsumeFromInstance(extraResources, specs[0]), specs[1..]);
    }
  }

  /** The corrected consumer charges a tracking host the sum of what was
      asked for, and touches nothing else. */
  lemma {:induction false} CorrectedChargesTotal(extraResources: map<string, int>, specs: seq<map<string, int>>)
    requires Used in extraResources
    ensures var r := ConsumeAllCorrected(extraResources, specs);
            r.Keys == extraResources.Keys
            && UsedBy(r) == UsedBy(extraResources) + TotalDemand(specs)
            && forall k :: k in r && k != Used ==> r[k] == extraResources[k]
  {
    if |specs| > 0 {
      CorrectedChargesTotal(ConsumeFromInstanceCorrected(extraResources, specs[0]), specs[1..]);
    }
  }

  /** The two agree whenever the host's used figure is already non-zero. */
  lemma AgreeWhenUsedNonZero(extraResources: map<string, int>, extraSpecs: map<string, int>)
    requires UsedBy(extraResources) != 0
    ensures ConsumeFromInstance(extraResources, extraSpecs) == ConsumeFromInstanceCorrected(extraResources, extraSpecs)
  {
  }

  /** The case the unit test covers: 512 used plus 512 asked for is 1024. */
  lemma UnitTestExample()
    ensures ConsumeFromInstance(map[Requested := 1024, Used := 512], map[Requested := 512])[Used] == 1024
  {
  }

  /** The discrepancy: a host with 0 used and a flavor asking for 512 stays
      at 0 as written, but reaches 512 once corrected. */
  lemma ZeroUsedExample()
    ensures ConsumeFromInstance(map[Requested := 1024, Used := 0], map[Requested := 512])[Used] == 0
    ensures ConsumeFromInstanceCorrected(map[Requested := 1024, Used := 0], map[Requested := 512])[Used] == 512
  {
  }
}
