/** nova/api/openstack/compute/views/address_uuid.py: the server addresses
    view that tags every address with the id of its network. Python dicts
    are maps from key to a small value type; an ip dict carries its
    `version` and `address` and may carry other keys, which the view drops. */
module AddressView {

  datatype Value = Int(i: int) | Str(s: string)

  /** An ip dict. */
  datatype Ip = Ip(version: int, address: string, others: map<string, Value>)

  /** A network dict: its id, its fixed ips and its floating ips. */
  datatype Network = Network(id: string, ips: seq<Ip>, floatingIps: seq<Ip>)

  type Entry = map<string, Value>

  const VersionKey := "version"
  const AddrKey := "addr"
  const IdKey := "id"

  /** `basic_uuid`: exactly three keys, whatever else the ip dict holds. */
  function BasicUuid(ip: Ip, id: string): (e: Entry)
    ensures e.Keys == {VersionKey, AddrKey, IdKey}
    ensures e[VersionKey] == Int(ip.version) && e[AddrKey] == Str(ip.address) && e[IdKey] == Str(id)
  {
    map[VersionKey := Int(ip.version), AddrKey := Str(ip.address), IdKey := Str(id)]
  }

  /** Two ips give the same entry exactly when their versions, their
      addresses and the network ids agree: nothing else of the ip dict
      reaches the view. */
  lemma BasicUuidKeepsOnlyVersionAndAddress(a: Ip, b: Ip, idA: string, idB: string)
    ensures BasicUuid(a, idA) == BasicUuid(b, idB) <==> a.version == b.version && a.address == b.address && idA == idB
  {
    if BasicUuid(a, idA) == BasicUuid(b, idB) {
      assert BasicUuid(a, idA)[VersionKey] == BasicUuid(b, idB)[VersionKey];
      assert BasicUuid(a, idA)[AddrKey] == BasicUuid(b, idB)[AddrKey];
      assert BasicUuid(a, idA)[IdKey] == BasicUuid(b, idB)[IdKey];
    }
  }

  /** The list comprehension over a run of ips, in order. */
  function Entries(ips: seq<Ip>, id: string): (es: seq<Entry>)
    ensures |es| == |ips|
    ensures forall i :: 0 <= i < |ips| ==> es[i] == BasicUuid(ips[i], id)
  {
    if |ips| == 0 then [] else [BasicUuid(ips[0], id)] + Entries(ips[1..], id)
  }

  /** Chaining two runs of ips and then converting is converting each run. */
  lemma EntriesConcat(a: seq<Ip>, b: seq<Ip>, id: string)
    ensures Entries(a + b, id) == Entries(a, id) + Entries(b, id)
  {
    var l, r := Entries(a + b, id), Entries(a, id) + Entries(b, id);
    forall i | 0 <= i < |l|
      ensures l[i] == r[i]
    {
      if i >= |a| {
        assert (a + b)[i] == b[i - |a|];
      }
    }
  }

  /** `show`: a single key, the label, holding the fixed ips then the
      floating ips, each run in its own order and every entry tagged with
      the network's id. */
  function Show(network: Network, netLabel: string): (r: map<string, seq<Entry>>)
    ensures r.Keys == {netLabel}
    ensures |r[netLabel]| == |network.ips| + |network.floatingIps|
    ensures forall i :: 0 <= i < |network.ips| ==> r[netLabel][i] == BasicUuid(network.ips[i], network.id)
    ensures forall j :: 0 <= j < |network.floatingIps| ==>
              r[netLabel][|network.ips| + j] == BasicUuid(network.floatingIps[j], network.id)
  {
    var es := Entries(network.ips + network.floatingIps, network.id);
    ShowLayout(network);
    map[netLabel := es]
  }

  /** Where each run's entries sit in the chained list. */
  lemma ShowLayout(network: Network)
    ensures var es := Entries(network.ips + network.floatingIps, network.id);
            && |es| == |network.ips| + |network.floatingIps|
            && (forall i :: 0 <= i < |network.ips| ==> es[i] == BasicUuid(network.ips[i], network.id))
            && (forall j :: 0 <= j < |network.floatingIps| ==>
                  es[|network.ips| + j] == BasicUuid(network.floatingIps[j], network.id))
  {
    var fixed, floating := Entries(network.ips, network.id), Entries(network.floatingIps, network.id);
    EntriesConcat(network.ips, network.floatingIps, network.id);
    assert forall j :: 0 <= j < |floating| ==> (fixed + floating)[|fixed| + j] == floating[j];
  }

  /** The addresses the view lists, in order. */
  function Addrs(es: seq<Entry>): seq<Value>
    requires forall i :: 0 <= i < |es| ==> AddrKey in es[i]
  {
    if |es| == 0 then [] else [es[0][AddrKey]] + Addrs(es[1..])
  }

  /** The addresses of a run of ips. */
  function AddressesOf(ips: seq<Ip>): seq<Value> {
    if |ips| == 0 then [] else [Str(ips[0].address)] + AddressesOf(ips[1..])
  }

  lemma {:induction false} AddressesOfConcat(a: seq<Ip>, b: seq<Ip>)
    ensures AddressesOf(a + b) == AddressesOf(a) + AddressesOf(b)
  {
    if |a| > 0 {
      AddressesOfConcat(a[1..], b);
      assert (a + b)[0] == a[0] && (a + b)[1..] == a[1..] + b;
    } else {
      assert a + b == b;
    }
  }

  lemma {:induction false} AddrsOfEntries(ips: seq<Ip>, id: string)
    ensures Addrs(Entries(ips, id)) == AddressesOf(ips)
  {
    if |ips| > 0 {
      AddrsOfEntries(ips[1..], id);
      assert Entries(ips, id)[1..] == Entries(ips[1..], id);
    }
  }

  /** Reading the addresses back out of `show` gives the fixed addresses
      followed by the floating ones: nothing is lost, added or reordered. */
  lemma ShowListsEveryAddress(network: Network, netLabel: string)
    ensures Addrs(Show(network, netLabel)[netLabel]) == AddressesOf(network.ips) + AddressesOf(network.floatingIps)
  {
    AddrsOfEntries(network.ips + network.floatingIps, network.id);
    AddressesOfConcat(network.ips, network.floatingIps);
  }

  /** Every entry `show` lists names the network's id. */
  lemma ShowTagsWithNetworkId(network: Network, netLabel: string)
    ensures var es := Show(network, netLabel)[netLabel];
            forall k :: 0 <= k < |es| ==> es[k][IdKey] == Str(network.id)
  {
    var es := Show(network, netLabel)[netLabel];
    forall k | |network.ips| <= k < |es|
      ensures es[k][IdKey] == Str(network.id)
    {
      assert es[|network.ips| + (k - |network.ips|)] == BasicUuid(network.floatingIps[k - |network.ips|], network.id);
    }
  }

  const AddressesKey := "addresses"

  /** `index`: under `addresses`, one list per network label, each the list
      `show` gives for that network. */
  function Index(networks: map<string, Network>): (r: map<string, map<string, seq<Entry>>>)
    ensures r.Keys == {AddressesKey}
    ensures r[AddressesKey].Keys == networks.Keys
    ensures forall netLabel :: netLabel in networks ==>
              |r[AddressesKey][netLabel]| == |networks[netLabel].ips| + |networks[netLabel].floatingIps|
  {
    map[AddressesKey := map netLabel | netLabel in networks :: Show(networks[netLabel], netLabel)[netLabel]]
  }

  /** For a single network, `index` holds exactly what `show` returns. */
  lemma IndexOfOneIsShow(netLabel: string, network: Network)
    ensures Index(map[netLabel := network])[AddressesKey] == Show(network, netLabel)
  {
  }

  /** Each label's list in `index` lists that network's addresses, fixed
      before floating, all tagged with its id. */
  lemma IndexListsEachNetwork(networks: map<string, Network>, netLabel: string)
    requires netLabel in networks
    ensures Addrs(Index(networks)[AddressesKey][netLabel])
            == AddressesOf(networks[netLabel].ips) + AddressesOf(networks[netLabel].floatingIps)
    ensures var es := Index(networks)[AddressesKey][netLabel];
            forall k :: 0 <= k < |es| ==> es[k][IdKey] == Str(networks[netLabel].id)
  {
    ShowListsEveryAddress(networks[netLabel], netLabel);
    ShowTagsWithNetworkId(networks[netLabel], netLabel);
  }
}
