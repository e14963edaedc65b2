/** The driver itself: the `network` objects whose fields the store, HNS and the
    restore path write in place, and the `driver` with its registry of networks,
    its optional cluster store and its discovery state. */
module Overlay {
  import opened Base
  import opened Text
  import opened Net
  import opened JsonModel
  import opened Record
  import opened Hns
  import opened Discovery

  /** Labels of the generic-data option of CreateNetwork. */
  const NetworkNameLabel: string := "com.docker.network.windowsshim.networkname"
  const InterfaceLabel: string := "com.docker.network.windowsshim.interface"
  const HnsIdLabel: string := "com.docker.network.windowsshim.hnsid"
  const VxlanIdListLabel: string := "com.docker.network.driver.overlay.vxlanid_list"

  /** A subnet holds the address of a host, compared with its mask length. */
  predicate SubnetHolds(s: Subnet, ip: IP) {
    s.subnetIP.Some? && Net.Contains(s.subnetIP.value, ip)
  }

  /** A subnet of the same mask length as `ip` that holds its address. */
  predicate SubnetForIP(s: Subnet, ip: Prefix) {
    s.subnetIP.Some? && s.subnetIP.value.ones == ip.ones && Net.Contains(s.subnetIP.value, V4(ip.ip))
  }

  class Network {
    const id: string
    var name: string
    var hnsId: string
    var dbIndex: nat
    var dbExists: bool
    var providerAddress: string
    var interfaceName: string
    var endpoints: map<string, Endpoint>
    var driver: Driver?
    var subnets: seq<Subnet>
    var secure: bool

    /** The value fields of the network. */
    function Fields(): NetRecord
      reads this
    {
      NetRecord(id, name, hnsId, dbIndex, dbExists, providerAddress, interfaceName, subnets, secure)
    }

    /** `&network{id: id}`. */
    constructor(id: string)
      ensures Fields() == Blank(id) && endpoints == map[] && driver == null
    {
      this.id := id;
      name := "";
      hnsId := "";
      dbIndex := 0;
      dbExists := false;
      providerAddress := "";
      interfaceName := "";
      endpoints := map[];
      driver := null;
      subnets := [];
      secure := false;
    }

    /** A network literal with the fields CreateNetwork fills in before registering it. */
    constructor Create(id: string, name: string, hnsId: string, interfaceName: string, subnets: seq<Subnet>, driver: Driver?)
      ensures Fields() == Blank(id).(name := name, hnsId := hnsId, interfaceName := interfaceName, subnets := subnets)
      ensures endpoints == map[] && this.driver == driver
    {
      this.id := id;
      this.name := name;
      this.hnsId := hnsId;
      dbIndex := 0;
      dbExists := false;
      providerAddress := "";
      this.interfaceName := interfaceName;
      endpoints := map[];
      this.driver := driver;
      this.subnets := subnets;
      secure := false;
    }

    function Index(): nat
      reads this
    {
      dbIndex
    }

    function Exists(): bool
      reads this
    {
      dbExists
    }

    /** SetIndex: records the store's index and that the record exists in the store. */
    method SetIndex(index: nat)
      modifies this`dbIndex, this`dbExists
      ensures Index() == index && Exists()
    {
      dbIndex := index;
      dbExists := true;
    }

    /** Value: the record written to the store. */
    method Value() returns (j: Json)
      ensures j == Encode(Fields())
    {
      var items: seq<Json> := [];
      var i := 0;
      while i < |subnets|
        invariant 0 <= i <= |subnets|
        invariant items == EncodeSubnets(subnets[..i])
      {
        var s := subnets[i];
        items := items + [EncodeSubnet(SubnetJSON(FormatPrefix(s.subnetIP), FormatIP(s.gwIP), s.vni))];
        i := i + 1;
      }
      assert subnets[..i] == subnets;
      j := JObject(map[
        "secure" := JBool(secure),
        "subnets" := JArray(items),
        "interfaceName" := JString(interfaceName),
        "providerAddress" := JString(providerAddress),
        "hnsId" := JString(hnsId),
        "name" := JString(name)]);
    }

    /** SetValue: decodes a stored record into this network, in place. */
    method SetValue(doc: Document) returns (err: Option<Error>)
      modifies this`secure, this`providerAddress, this`interfaceName, this`hnsId, this`name, this`subnets
      ensures (Fields(), err) == SetValueSpec(old(Fields()), doc)
    {
      var newNet := |subnets| == 0;
      var list: seq<SubnetJSON>;
      if doc.Malformed? {
        return Some(UndecodableRecord);
      }
      var j := doc.json;
      if j.JObject? || j.JNull? {
        var m := if j.JObject? then j.fields else map[];
        err := SetFields(m);
        if err.Some? {
          return;
        }
        var decoded := DecodeSubnetList(if "subnets" in m then m["subnets"] else JNull);
        if decoded.Err? {
          return Some(decoded.error);
        }
        list := decoded.value;
      } else if j.JArray? {
        var decoded := DecodeItems(j.items);
        if decoded.Err? {
          return Some(decoded.error);
        }
        list := decoded.value;
      } else {
        return Some(UndecodableRecord);
      }
      err := ApplySubnetRecords(list, newNet);
    }

    /** The scalar fields of SetValue's map shape, each checked for its type. */
    method SetFields(m: map<string, Json>) returns (err: Option<Error>)
      modifies this`secure, this`providerAddress, this`interfaceName, this`hnsId, this`name
      ensures (Fields(), err) == ApplyFields(old(Fields()), m)
    {
      if "secure" in m {
        if !m["secure"].JBool? {
          return Some(FieldTypeMismatch("secure"));
        }
        secure := m["secure"].b;
      }
      if "providerAddress" in m {
        if !m["providerAddress"].JString? {
          return Some(FieldTypeMismatch("providerAddress"));
        }
        providerAddress := m["providerAddress"].s;
      }
      if "interfaceName" in m {
        if !m["interfaceName"].JString? {
          return Some(FieldTypeMismatch("interfaceName"));
        }
        interfaceName := m["interfaceName"].s;
      }
      if "hnsId" in m {
        if !m["hnsId"].JString? {
          return Some(FieldTypeMismatch("hnsId"));
        }
        hnsId := m["hnsId"].s;
      }
      if "name" in m {
        if !m["name"].JString? {
          return Some(FieldTypeMismatch("name"));
        }
        name := m["name"].s;
      }
      return None;
    }

    /** SetValue's loop over the decoded subnet records: a new network appends each one;
      otherwise the matching subnet, if any, takes the record's VNI. A match that meets a
      nil prefix stops the loop with NilSubnetPrefix. */
    method ApplySubnetRecords(list: seq<SubnetJSON>, newNet: bool) returns (err: Option<Error>)
      modifies this`subnets
      ensures (subnets, err) == ApplySubnets(old(subnets), list, newNet)
    {
      var i := 0;
      while i < |list|
        invariant 0 <= i <= |list|
        invariant (subnets, None) == ApplySubnets(old(subnets), list[..i], newNet)
      {
        var sj := list[i];
        var subnetIP := ParseCIDR(sj.subnetIP);
        var gwIP := ParseIP(sj.gwIP);
        assert list[..i + 1][..i] == list[..i];
        if newNet {
          subnets := subnets + [Subnet(sj.vni, subnetIP, gwIP)];
        } else {
          var k := GetMatchingSubnet(subnetIP);
          if k.Err? {
            ApplySubnetsStops(old(subnets), list, i + 1, newNet);
            return Some(k.error);
          }
          if k.value.Some? {
            subnets := subnets[k.value.value := subnets[k.value.value].(vni := sj.vni)];
          }
        }
        i := i + 1;
      }
      assert list[..i] == list;
      return None;
    }

    /** contains: some subnet holds the address. The scan dereferences each subnet's
      prefix until one holds the address, so a nil prefix met first is NilSubnetPrefix. */
    method Contains(ip: IP) returns (r: Result<bool>)
      ensures r == Ok(true) ==>
        exists i :: 0 <= i < |subnets| && SubnetHolds(subnets[i], ip) &&
          forall j :: 0 <= j < i ==> subnets[j].subnetIP.Some?
      ensures r == Ok(false) ==> forall j :: 0 <= j < |subnets| ==> subnets[j].subnetIP.Some? && !SubnetHolds(subnets[j], ip)
      ensures r.Err? ==>
        && r.error == NilSubnetPrefix
        && exists i :: 0 <= i < |subnets| && subnets[i].subnetIP.None? &&
             forall j :: 0 <= j < i ==> subnets[j].subnetIP.Some? && !SubnetHolds(subnets[j], ip)
    {
      var i := 0;
      while i < |subnets|
        invariant 0 <= i <= |subnets|
        invariant forall j :: 0 <= j < i ==> subnets[j].subnetIP.Some? && !SubnetHolds(subnets[j], ip)
      {
        var s := subnets[i];
        if s.subnetIP.None? {
          return Err(NilSubnetPrefix);
        }
        if Net.Contains(s.subnetIP.value, ip) {
          return Ok(true);
        }
        i := i + 1;
      }
      return Ok(false);
    }

    /** getSubnetforIP: the position of the first subnet with the same mask length that
      holds the address, if any. The scan reads each subnet's mask until it finds one, so a
      nil prefix met first is NilSubnetPrefix. */
    method GetSubnetForIP(ip: Prefix) returns (r: Result<Option<nat>>)
      ensures r.Ok? && r.value.Some? ==>
        && r.value.value < |subnets| && SubnetForIP(subnets[r.value.value], ip)
        && forall j :: 0 <= j < r.value.value ==> subnets[j].subnetIP.Some? && !SubnetForIP(subnets[j], ip)
      ensures r == Ok(None) ==> forall j :: 0 <= j < |subnets| ==> subnets[j].subnetIP.Some? && !SubnetForIP(subnets[j], ip)
      ensures r.Err? ==>
        && r.error == NilSubnetPrefix
        && exists i :: 0 <= i < |subnets| && subnets[i].subnetIP.None? &&
             forall j :: 0 <= j < i ==> subnets[j].subnetIP.Some? && !SubnetForIP(subnets[j], ip)
    {
      var i := 0;
      while i < |subnets|
        invariant 0 <= i <= |subnets|
        invariant forall j :: 0 <= j < i ==> subnets[j].subnetIP.Some? && !SubnetForIP(subnets[j], ip)
      {
        var s := subnets[i];
        if s.subnetIP.None? {
          return Err(NilSubnetPrefix);
        }
        if s.subnetIP.value.ones == ip.ones && Net.Contains(s.subnetIP.value, V4(ip.ip)) {
          return Ok(Some(i));
        }
        i := i + 1;
      }
      return Ok(None);
    }

    /** getMatchingSubnet: the position of the first subnet with the same mask length and
      the same address; none for a nil prefix; NilSubnetPrefix when a subnet with a nil
      prefix comes first. */
    method GetMatchingSubnet(ip: Option<Prefix>) returns (r: Result<Option<nat>>)
      ensures r == MatchingSubnet(subnets, ip)
    {
      if ip.None? {
        return Ok(None);
      }
      var i := 0;
      while i < |subnets|
        invariant 0 <= i <= |subnets|
        invariant forall j :: 0 <= j < i ==> subnets[j].subnetIP.Some? && !SameNetwork(subnets[j], ip.value)
      {
        var s := subnets[i];
        if s.subnetIP.None? {
          MatchingIsFirst(subnets, ip, i);
          return Err(NilSubnetPrefix);
        }
        if s.subnetIP.value.ones == ip.value.ones && s.subnetIP.value.ip == ip.value.ip {
          MatchingIsFirst(subnets, ip, i);
          return Ok(Some(i));
        }
        i := i + 1;
      }
      MatchingIsFirst(subnets, ip, |subnets|);
      return Ok(None);
    }

    /** createHnsNetwork: posts the descriptor of this network; on success takes the HNS
      id and the management IP of the response, on failure changes nothing. */
    method CreateHnsNetwork(backend: Backend) returns (err: Option<Error>)
      modifies this`hnsId, this`providerAddress
      ensures var response := backend.createNetwork(Descriptor(old(Fields())));
        && (response.Err? ==> err == Some(response.error) && Fields() == old(Fields()))
        && (response.Ok? ==>
              err.None? && Fields() == old(Fields()).(hnsId := response.value.id, providerAddress := response.value.managementIP))
    {
      var hs: seq<HnsSubnet> := [];
      var i := 0;
      while i < |subnets|
        invariant 0 <= i <= |subnets|
        invariant hs == HnsSubnetsOf(subnets[..i])
      {
        var s := subnets[i];
        var subnet := HnsSubnet(FormatPrefix(s.subnetIP), FormatIP(s.gwIP), [VsidPolicyDoc(s.vni)]);
        hs := hs + [subnet];
        i := i + 1;
      }
      assert subnets[..i] == subnets;
      var network := HnsNetwork("", name, NetworkType, interfaceName, "", hs);
      assert network == Descriptor(Fields());
      var response := backend.createNetwork(network);
      if response.Err? {
        return Some(response.error);
      }
      hnsId := response.value.id;
      providerAddress := response.value.managementIP;
      return None;
    }

    /** restoreNetworkEndpoints: adds the endpoints HNS lists for this network. */
    method RestoreNetworkEndpoints(listing: Result<seq<HnsEndpoint>>, parseMac: string -> Option<seq<Byte>>)
      returns (err: Option<Error>)
      modifies this`endpoints
      ensures listing.Err? ==> err == Some(listing.error) && endpoints == old(endpoints)
      ensures listing.Ok? ==> err.None? && endpoints == RestoredEndpoints(old(endpoints), listing.value, id, hnsId, parseMac)
    {
      if listing.Err? {
        return Some(listing.error);
      }
      var list := listing.value;
      var i := 0;
      while i < |list|
        invariant 0 <= i <= |list|
        invariant endpoints == RestoredEndpoints(old(endpoints), list[..i], id, hnsId, parseMac)
      {
        var endpoint := list[i];
        assert list[..i + 1][..i] == list[..i];
        if endpoint.virtualNetwork == hnsId {
          var ep := ConvertToOverlayEndpoint(id, endpoint, parseMac);
          if ep.Some? {
            endpoints := endpoints[ep.value.id := ep.value];
          }
        }
        i := i + 1;
      }
      assert list[..i] == list;
      return None;
    }
  }

  /** The search of getMatchingSubnet stops at the first subnet that matches or has a nil
      prefix. */
  lemma {:induction false} MatchingIsFirst(subnets: seq<Subnet>, p: Option<Prefix>, i: nat)
    requires p.Some? && i <= |subnets|
    requires forall j :: 0 <= j < i ==> subnets[j].subnetIP.Some? && !SameNetwork(subnets[j], p.value)
    requires i < |subnets| ==> subnets[i].subnetIP.None? || SameNetwork(subnets[i], p.value)
    ensures MatchingSubnet(subnets, p) ==
      if i == |subnets| then Ok(None)
      else if subnets[i].subnetIP.None? then Err(NilSubnetPrefix)
      else Ok(Some(i))
  {
    if 0 < i && 0 < |subnets| {
      MatchingIsFirst(subnets[1..], p, i - 1);
    }
  }

  /** The VNIs of the vxlan-id label, one per comma-separated piece, each converted to
      uint32 the way Go converts an int; the first piece that is not an integer is the
      error. */
  function VniValues(pieces: seq<string>): (r: Result<seq<uint32>>)
    ensures r.Ok? <==> forall i :: 0 <= i < |pieces| ==> Atoi(pieces[i]).Some?
    ensures r.Ok? ==> |r.value| == |pieces| && forall i :: 0 <= i < |pieces| ==> r.value[i] == ToUint32(Atoi(pieces[i]).value)
    ensures r.Err? ==> exists i :: 0 <= i < |pieces| && Atoi(pieces[i]).None? && r.error == InvalidVxlanId(pieces[i])
  {
    if |pieces| == 0 then Ok([])
    else
      var last := pieces[|pieces| - 1];
      match VniValues(pieces[..|pieces| - 1])
      case Err(e) => Err(e)
      case Ok(vnis) =>
        match Atoi(last)
        case None => Err(InvalidVxlanId(last))
        case Some(v) => Ok(vnis + [ToUint32(v)])
  }

  /** A vxlan-id label written as the decimal VNIs joined by commas reads back as
      those VNIs. */
  lemma VniListRoundTrip(vnis: seq<uint32>)
    requires |vnis| >= 1
    ensures VniValues(Split(Join(seq(|vnis|, i requires 0 <= i < |vnis| => Dec(vnis[i])), ','), ',')) == Ok(vnis)
  {
    var pieces := seq(|vnis|, i requires 0 <= i < |vnis| => Dec(vnis[i]));
    forall i | 0 <= i < |pieces| ensures ',' !in pieces[i] && Atoi(pieces[i]) == Some(vnis[i] as int) {
      DigitsHaveNo(pieces[i], ',');
      AtoiDec(vnis[i]);
    }
    SplitJoin(pieces, ',');
    var r := VniValues(pieces);
    assert r.Ok?;
    assert r.value == vnis;
  }

  /** The error names the first piece that is not an integer. */
  lemma {:induction false} VniFirstError(pieces: seq<string>, i: nat)
    requires i < |pieces| && Atoi(pieces[i]).None?
    requires forall j :: 0 <= j < i ==> Atoi(pieces[j]).Some?
    ensures VniValues(pieces) == Err(InvalidVxlanId(pieces[i]))
  {
    var prefix := pieces[..|pieces| - 1];
    if i < |pieces| - 1 {
      assert prefix[i] == pieces[i];
      assert forall j :: 0 <= j < i ==> prefix[j] == pieces[j];
      VniFirstError(prefix, i);
    } else {
      assert forall j :: 0 <= j < |prefix| ==> Atoi(prefix[j]).Some?;
    }
  }

  /** One more integer piece extends the VNIs read so far. */
  lemma VniValuesStep(pieces: seq<string>, i: nat, vnis: seq<uint32>)
    requires i < |pieces| && VniValues(pieces[..i]) == Ok(vnis) && Atoi(pieces[i]).Some?
    ensures VniValues(pieces[..i + 1]) == Ok(vnis + [ToUint32(Atoi(pieces[i]).value)])
  {
    assert pieces[..i + 1][..i] == pieces[..i];
  }

  /** The VNI loop of CreateNetwork over the comma-separated label value. */
  method ParseVniList(value: string) returns (r: Result<seq<uint32>>)
    ensures r == VniValues(Split(value, ','))
  {
    var vniStrings := Split(value, ',');
    var vnis: seq<uint32> := [];
    var i := 0;
    while i < |vniStrings|
      invariant 0 <= i <= |vniStrings|
      invariant VniValues(vniStrings[..i]) == Ok(vnis)
      invariant forall j :: 0 <= j < i ==> Atoi(vniStrings[j]).Some?
    {
      var vni := Atoi(vniStrings[i]);
      if vni.None? {
        VniFirstError(vniStrings, i);
        return Err(InvalidVxlanId(vniStrings[i]));
      }
      VniValuesStep(vniStrings, i, vnis);
      vnis := vnis + [ToUint32(vni.value)];
      i := i + 1;
    }
    assert vniStrings[..i] == vniStrings;
    return Ok(vnis);
  }

  /** What CreateNetwork reads from its generic-data labels. */
  datatype CreateLabels = CreateLabels(networkName: string, interfaceName: string, hnsId: string, vnis: seq<uint32>)

  function Label(labels: map<string, string>, key: string): string {
    if key in labels then labels[key] else ""
  }

  /** The label loop of CreateNetwork. Only the vxlan-id label can fail, so the order in
      which Go visits the labels does not change the outcome. */
  function ParseLabels(labels: map<string, string>): Result<CreateLabels> {
    var vnis := if VxlanIdListLabel in labels then VniValues(Split(labels[VxlanIdListLabel], ',')) else Ok([]);
    match vnis
    case Err(e) => Err(e)
    case Ok(vs) => Ok(CreateLabels(Label(labels, NetworkNameLabel), Label(labels, InterfaceLabel), Label(labels, HnsIdLabel), vs))
  }

  /** An address pool and gateway handed to CreateNetwork by IP address management. */
  datatype IPAMData = IPAMData(pool: Prefix, gateway: IP)

  /** The pool check of CreateNetwork: no pool, or a first pool that prints as 0.0.0.0/0. */
  predicate NoUsablePool(pools: seq<IPAMData>) {
    |pools| == 0 || FormatCIDR(pools[0].pool) == "0.0.0.0/0"
  }

  /** The checks of CreateNetwork after the pool check: the generic-data option must be a
      string map, its labels must parse, and there must be a VNI for every pool. */
  function CreateRequest(option: Option<map<string, string>>, poolCount: nat): (r: Result<CreateLabels>)
    ensures r.Ok? ==> |r.value.vnis| >= poolCount
  {
    match option
    case None => Err(UnknownGenericData)
    case Some(labels) =>
      match ParseLabels(labels)
      case Err(e) => Err(e)
      case Ok(l) => if |l.vnis| < poolCount then Err(InsufficientVnis(|l.vnis|)) else Ok(l)
  }

  /** Subnet i takes pool i, gateway i and VNI i. */
  function NewSubnets(pools: seq<IPAMData>, vnis: seq<uint32>): seq<Subnet>
    requires |vnis| >= |pools|
  {
    seq(|pools|, i requires 0 <= i < |pools| => Subnet(vnis[i], Some(pools[i].pool), pools[i].gateway))
  }

  /** A vxlan-id label with a piece that is not an integer is refused, naming the first
      such piece, whatever the number of pools. */
  lemma BadVniRejected(labels: map<string, string>, poolCount: nat, i: nat)
    requires VxlanIdListLabel in labels
    requires var pieces := Split(labels[VxlanIdListLabel], ',');
      i < |pieces| && Atoi(pieces[i]).None? && forall j :: 0 <= j < i ==> Atoi(pieces[j]).Some?
    ensures CreateRequest(Some(labels), poolCount) == Err(InvalidVxlanId(Split(labels[VxlanIdListLabel], ',')[i]))
  {
    VniFirstError(Split(labels[VxlanIdListLabel], ','), i);
  }

  /** An accepted request with at least one pool carries a vxlan-id label, and subnet i
      of the new network has pool i, gateway i and the i-th listed VNI (as uint32). */
  lemma VnisAssigned(labels: map<string, string>, pools: seq<IPAMData>)
    requires |pools| >= 1 && CreateRequest(Some(labels), |pools|).Ok?
    ensures VxlanIdListLabel in labels
    ensures var pieces := Split(labels[VxlanIdListLabel], ',');
      var subnets := NewSubnets(pools, CreateRequest(Some(labels), |pools|).value.vnis);
      && |pieces| >= |subnets| == |pools|
      && forall i :: 0 <= i < |pools| ==>
           && subnets[i].subnetIP == Some(pools[i].pool) && subnets[i].gwIP == pools[i].gateway
           && Atoi(pieces[i]).Some? && subnets[i].vni == ToUint32(Atoi(pieces[i]).value)
  {
  }

  /** The network CreateNetwork builds before posting it to HNS; its name defaults to
      its id. */
  function NewRecord(id: string, l: CreateLabels, pools: seq<IPAMData>): NetRecord
    requires |l.vnis| >= |pools|
  {
    NetRecord(id, if l.networkName == "" then id else l.networkName, l.hnsId, 0, false, "", l.interfaceName,
              NewSubnets(pools, l.vnis), false)
  }

  /** Some subnet carries the VNI. */
  predicate HasVni(subnets: seq<Subnet>, vni: uint32) {
    exists j :: 0 <= j < |subnets| && subnets[j].vni == vni
  }

  /** getNetworkFromStore: no store, no record under the network's key, a record that
      does not decode, or an HNS create that fails all give nothing; otherwise the decoded
      network with the store's index and the HNS id and address of the response. */
  function LoadFromStore(store: Option<Store>, backend: Backend, nid: string): Option<NetRecord> {
    if store.None? || Key(nid) !in store.value.records then None
    else
      var kv := store.value.records[Key(nid)];
      var (r, e) := SetValueSpec(Blank(nid), kv.value);
      if e.Some? then None
      else
        var indexed := r.(dbIndex := kv.lastIndex, dbExists := true);
        match backend.createNetwork(Descriptor(indexed))
        case Err(_) => None
        case Ok(response) => Some(indexed.(hnsId := response.id, providerAddress := response.managementIP))
  }

  /** A network record written by Value is loaded back with its fields and subnets, the
      store's index, and the HNS id and address of the create response. */
  lemma LoadWrittenRecord(store: Store, backend: Backend, r: NetRecord, index: nat)
    requires Key(r.id) in store.records && store.records[Key(r.id)] == KVPair(Parsed(Encode(r)), index)
    ensures var loaded := Blank(r.id).(secure := r.secure, providerAddress := r.providerAddress,
                                       interfaceName := r.interfaceName, hnsId := r.hnsId, name := r.name,
                                       subnets := r.subnets, dbIndex := index, dbExists := true);
      match backend.createNetwork(Descriptor(loaded))
      case Err(_) => LoadFromStore(Some(store), backend, r.id).None?
      case Ok(response) =>
        LoadFromStore(Some(store), backend, r.id) ==
          Some(NetRecord(r.id, r.name, response.id, index, true, response.managementIP, r.interfaceName, r.subnets, r.secure))
  {
    EncodeDecodeRoundTrip(r, Blank(r.id));
  }

  /** Every HNS delete succeeds. */
  ghost predicate DeletesSucceed(backend: Backend) {
    forall h :: backend.deleteNetwork(h).Pass?
  }

  /** Every entry is registered under its own, non-empty id. */
  ghost predicate KeyedRegistry(m: map<string, Network>) {
    forall k :: k in m ==> m[k].id == k && k != ""
  }

  /** No two registered networks share a VNI. */
  ghost predicate UniqueVnis(m: map<string, Network>)
    reads m.Values`subnets
  {
    forall k1, k2, v :: k1 in m && k2 in m && k1 != k2 && HasVni(m[k1].subnets, v) ==> !HasVni(m[k2].subnets, v)
  }

  /** Removing one entry keeps the registry keyed and its VNIs unique. */
  lemma RegistryWithout(m: map<string, Network>, id: string)
    ensures KeyedRegistry(m) ==> KeyedRegistry(m - {id})
    ensures UniqueVnis(m) ==> UniqueVnis(m - {id})
  {
  }

  /** The ids the stale scan found, as DeleteNetwork removes them (never the empty id). */
  ghost function StaleIds(stale: seq<Option<string>>): set<string> {
    set o | o in stale && o.Some? && o.value != "" :: o.value
  }

  /** No registered network owns the VNI of any of the subnets. */
  ghost predicate Unowned(m: map<string, Network>, subnets: seq<Subnet>)
    reads m.Values`subnets
  {
    forall k, i :: k in m && 0 <= i < |subnets| ==> !HasVni(m[k].subnets, subnets[i].vni)
  }

  /** The stale scan's report on the subnets: for each one, the id of a network that owns
      its VNI, or none when no network owns it. */
  ghost predicate StaleScan(m: map<string, Network>, subnets: seq<Subnet>, stale: seq<Option<string>>)
    reads m.Values`subnets
  {
    && |stale| == |subnets|
    && (forall i :: 0 <= i < |stale| && stale[i].Some? ==>
          exists k :: k in m && m[k].id == stale[i].value && HasVni(m[k].subnets, subnets[i].vni))
    && (forall i :: 0 <= i < |stale| && stale[i].None? ==>
          forall k :: k in m ==> !HasVni(m[k].subnets, subnets[i].vni))
  }

  /** The same report with the key of each owner found as a witness. */
  ghost predicate ScanReport(m: map<string, Network>, subnets: seq<Subnet>, stale: seq<Option<string>>, owners: seq<string>)
    reads m.Values`subnets
  {
    && |stale| == |owners| == |subnets|
    && (forall i :: 0 <= i < |stale| && stale[i].Some? ==>
          owners[i] in m && m[owners[i]].id == stale[i].value && HasVni(m[owners[i]].subnets, subnets[i].vni))
    && (forall i :: 0 <= i < |stale| && stale[i].None? ==>
          forall k :: k in m ==> !HasVni(m[k].subnets, subnets[i].vni))
  }

  lemma ReportIsScan(m: map<string, Network>, subnets: seq<Subnet>, stale: seq<Option<string>>, owners: seq<string>)
    requires ScanReport(m, subnets, stale, owners)
    ensures StaleScan(m, subnets, stale)
  {
  }

  /** Deleting what the stale scan found frees every VNI it scanned for: a VNI without an
      owner stays so, and the one owner of a VNI (the VNIs being unique) is deleted. */
  lemma StaleDeletedFreesVnis(before: map<string, Network>, after: map<string, Network>, subnets: seq<Subnet>,
                              stale: seq<Option<string>>, owners: seq<string>)
    requires KeyedRegistry(before) && UniqueVnis(before) && ScanReport(before, subnets, stale, owners)
    requires after == before - StaleIds(stale)
    ensures KeyedRegistry(after) && UniqueVnis(after) && Unowned(after, subnets)
  {
  }

  /** Registering a network under its own new id whose VNIs nobody owns keeps the registry
      keyed and its VNIs unique. */
  lemma AddUnownedNetwork(m: map<string, Network>, n: Network)
    requires KeyedRegistry(m) && UniqueVnis(m) && n.id != "" && n.id !in m && Unowned(m, n.subnets)
    ensures KeyedRegistry(m[n.id := n]) && UniqueVnis(m[n.id := n])
  {
  }

  /** The endpoints restoreNetworkEndpoints gives a fresh network: none when the
      listing fails (the error is dropped), otherwise the listed ones of its HNS network. */
  function ListedEndpoints(listing: Result<seq<HnsEndpoint>>, nid: string, hnsId: string,
                           parseMac: string -> Option<seq<Byte>>): map<string, Endpoint>
  {
    if listing.Err? then map[] else RestoredEndpoints(map[], listing.value, nid, hnsId, parseMac)
  }

  /** Every overlay descriptor of the listing converts (none holds a null policy). */
  predicate Restorable(list: seq<HnsNetwork>) {
    if |list| == 0 then true
    else
      var v := list[|list| - 1];
      Restorable(list[..|list| - 1]) && (v.networkType == NetworkType ==> ConvertedRecord(v).Some?)
  }

  /** Restorable, stated over each element of the listing. */
  lemma {:induction false} RestorableEach(list: seq<HnsNetwork>)
    ensures Restorable(list) <==>
      forall i :: 0 <= i < |list| && list[i].networkType == NetworkType ==> ConvertedRecord(list[i]).Some?
  {
    if |list| > 0 {
      var n := |list| - 1;
      RestorableEach(list[..n]);
      assert forall i :: 0 <= i < n ==> list[..n][i] == list[i];
    }
  }

  /** A registered network restored from descriptor `v`: converted from it, owned by
      `d`, with the endpoints restored for it. */
  ghost predicate RestoredEntry(d: Driver, n: Network, v: HnsNetwork, endpoints: Result<seq<HnsEndpoint>>,
                                parseMac: string -> Option<seq<Byte>>)
    reads n
  {
    && ConvertedRecord(v) == Some(n.Fields())
    && n.endpoints == ListedEndpoints(endpoints, v.name, v.id, parseMac)
    && n.driver == d
  }

  /** The registry holds, under each restored name, the network restored from the
      descriptor of that name. */
  ghost predicate HoldsRestored(d: Driver, m: map<string, Network>, restored: map<string, HnsNetwork>,
                                endpoints: Result<seq<HnsEndpoint>>, parseMac: string -> Option<seq<Byte>>)
    reads m.Values
  {
    forall k :: k in restored ==> k in m && RestoredEntry(d, m[k], restored[k], endpoints, parseMac)
  }

  /** Adding the network restored from one more descriptor, with every other entry
      kept, extends what the registry holds. */
  lemma HoldsRestoredStep(d: Driver, mid: map<string, Network>, n: Network,
                          restored: map<string, HnsNetwork>, v: HnsNetwork,
                          endpoints: Result<seq<HnsEndpoint>>, parseMac: string -> Option<seq<Byte>>)
    requires HoldsRestored(d, mid, restored, endpoints, parseMac)
    requires RestoredEntry(d, n, v, endpoints, parseMac)
    ensures HoldsRestored(d, mid[v.name := n], restored[v.name := v], endpoints, parseMac)
  {
  }

  /** Part way through a restore: the registry holds the names it held at the start
      plus the restored ones, every entry not restored is as it was at the start, and
      each restored name holds the network restored from its descriptor. */
  ghost predicate RestoreProgress(d: Driver, before: map<string, Network>, now: map<string, Network>,
                                  restored: map<string, HnsNetwork>, endpoints: Result<seq<HnsEndpoint>>,
                                  parseMac: string -> Option<seq<Byte>>)
    reads now.Values
  {
    && now.Keys == before.Keys + restored.Keys
    && (forall k :: k in now && k !in restored ==> now[k] == before[k])
    && HoldsRestored(d, now, restored, endpoints, parseMac)
  }

  /** The names restored from a prefix of the listing are restored from the whole. */
  lemma {:induction false} RestoredNamesPrefix(list: seq<HnsNetwork>, i: nat)
    requires i <= |list|
    ensures RestoredDescriptors(list[..i]).Keys <= RestoredDescriptors(list).Keys
    decreases |list| - i
  {
    if i < |list| {
      RestoredNamesPrefix(list, i + 1);
      assert list[..i + 1][..i] == list[..i];
    } else {
      assert list[..i] == list;
    }
  }

  /** One more descriptor of the listing: an overlay one is restored under its name and
      must convert; any other is skipped. */
  lemma RestoreStep(list: seq<HnsNetwork>, i: nat)
    requires i < |list|
    ensures var v := list[i];
      && RestoredDescriptors(list[..i + 1]) ==
           (if v.networkType == NetworkType then RestoredDescriptors(list[..i])[v.name := v] else RestoredDescriptors(list[..i]))
      && (Restorable(list[..i + 1]) <==> Restorable(list[..i]) && (v.networkType == NetworkType ==> ConvertedRecord(v).Some?))
  {
    assert list[..i + 1][..i] == list[..i];
  }

  /** An overlay descriptor that does not convert makes the listing unrestorable; the
      names restored before it are among the names of the whole listing. */
  lemma RestoreStops(list: seq<HnsNetwork>, i: nat)
    requires i < |list| && list[i].networkType == NetworkType && ConvertedRecord(list[i]).None?
    ensures !Restorable(list)
    ensures RestoredDescriptors(list[..i]).Keys <= RestoredDescriptors(list).Keys
  {
    RestorableEach(list);
    RestoredNamesPrefix(list, i);
  }

  /** Registering one more restored descriptor keeps the registry's names those of the
      start plus the restored ones, and every other entry as it was at the start. */
  lemma RestoredKeysStep<T>(before: map<string, T>, mid: map<string, T>, after: map<string, T>,
                            restored: map<string, HnsNetwork>, v: HnsNetwork)
    requires mid.Keys == before.Keys + restored.Keys
    requires forall k :: k in mid && k !in restored ==> mid[k] == before[k]
    requires after.Keys == mid.Keys + {v.name}
    requires forall k :: k in after && k != v.name ==> after[k] == mid[k]
    ensures after.Keys == before.Keys + restored[v.name := v].Keys
    ensures forall k :: k in after && k !in restored[v.name := v] ==> after[k] == before[k]
  {
  }

  /** Outcome of opening a store from a datastore configuration. */
  datatype StoreOpen = Opened(store: Store) | OpenFailed(message: string)

  class Driver {
    const backend: Backend
    var networks: map<string, Network>
    var store: Option<Store>
    var neighIP: string
    var advertiseAddress: string
    var bindAddress: string
    var serfUp: bool
    var joinLatch: bool
    var joinAttempts: nat
    var localDbPushes: nat

    /** A driver with an empty registry and the store it was configured with. */
    constructor(backend: Backend, store: Option<Store>)
      ensures this.backend == backend && this.store == store && networks == map[]
      ensures JoinView() == Initial
    {
      this.backend := backend;
      this.store := store;
      networks := map[];
      neighIP := "";
      advertiseAddress := "";
      bindAddress := "";
      serfUp := false;
      joinLatch := false;
      joinAttempts := 0;
      localDbPushes := 0;
    }

    /** The discovery state of the driver. */
    function JoinView(): JoinState
      reads this
    {
      JoinState(serfUp, joinLatch, neighIP, advertiseAddress, bindAddress, joinAttempts, localDbPushes)
    }

    /** addNetwork. */
    method AddNetwork(n: Network)
      modifies this`networks
      ensures networks == old(networks)[n.id := n]
    {
      networks := networks[n.id := n];
    }

    /** deleteNetwork: removes the entry, if any. */
    method DeleteNetworkEntry(nid: string)
      modifies this`networks
      ensures networks == old(networks) - {nid}
    {
      networks := networks - {nid};
    }

    /** getNetworkFromStore. */
    method GetNetworkFromStore(nid: string) returns (n: Network?)
      ensures n == null <==> LoadFromStore(store, backend, nid).None?
      ensures n != null ==> fresh(n) && n.Fields() == LoadFromStore(store, backend, nid).value && n.endpoints == map[]
    {
      if store.None? {
        return null;
      }
      var records := store.value.records;
      if Key(nid) !in records {
        return null;
      }
      var kv := records[Key(nid)];
      n := new Network(nid);
      var err := n.SetValue(kv.value);
      if err.Some? {
        return null;
      }
      n.SetIndex(kv.lastIndex);
      err := n.CreateHnsNetwork(backend);
      if err.Some? {
        return null;
      }
    }

    /** network(): the registry entry, or else the network loaded from the store, which is
        then registered with this driver and an empty endpoint table. */
    method Lookup(nid: string) returns (n: Network?)
      modifies this`networks
      ensures nid in old(networks) ==> n == old(networks)[nid] && networks == old(networks)
      ensures nid !in old(networks) && LoadFromStore(store, backend, nid).None? ==> n == null && networks == old(networks)
      ensures nid !in old(networks) && LoadFromStore(store, backend, nid).Some? ==>
        && n != null && fresh(n) && n.Fields() == LoadFromStore(store, backend, nid).value
        && n.endpoints == map[] && n.driver == this && networks == old(networks)[nid := n]
    {
      if nid in networks {
        return networks[nid];
      }
      n := GetNetworkFromStore(nid);
      if n != null {
        n.driver := this;
        n.endpoints := map[];
        networks := networks[nid := n];
      }
    }

    /** DeleteNetwork: an empty id is an error; an id neither registered nor loadable from
        the store is Forbidden; a failed HNS delete is Forbidden and keeps the entry;
        otherwise exactly `nid` is removed. */
    method DeleteNetwork(nid: string) returns (err: Option<Error>)
      modifies this`networks
      ensures networks - {nid} == old(networks) - {nid}
      ensures nid == "" ==> err == Some(InvalidNetworkId) && networks == old(networks)
      ensures nid != "" && nid in old(networks) ==>
        var outcome := backend.deleteNetwork(old(networks[nid].hnsId));
        && (outcome.Pass? ==> err.None? && networks == old(networks) - {nid})
        && (outcome.Fail? ==> err == Some(BackendForbidden(outcome.message)) && networks == old(networks))
      ensures nid != "" && nid !in old(networks) && LoadFromStore(store, backend, nid).None? ==>
        err == Some(NetworkNotFound(nid)) && err.value.Kind() == Forbidden && networks == old(networks)
      ensures nid != "" && nid !in old(networks) && LoadFromStore(store, backend, nid).Some? ==>
        var outcome := backend.deleteNetwork(LoadFromStore(store, backend, nid).value.hnsId);
        && (outcome.Pass? ==> err.None? && networks == old(networks))
        && (outcome.Fail? ==>
              && err == Some(BackendForbidden(outcome.message)) && nid in networks
              && fresh(networks[nid]) && networks[nid].Fields() == LoadFromStore(store, backend, nid).value)
      ensures DeletesSucceed(backend) && nid != "" ==> err.None? || nid !in old(networks)
      ensures DeletesSucceed(backend) && nid != "" ==> networks == old(networks) - {nid}
    {
      if nid == "" {
        return Some(InvalidNetworkId);
      }
      var n := Lookup(nid);
      if n == null {
        return Some(NetworkNotFound(nid));
      }
      var outcome := backend.deleteNetwork(n.hnsId);
      if outcome.Fail? {
        return Some(BackendForbidden(outcome.message));
      }
      DeleteNetworkEntry(nid);
      return None;
    }

    /** The stale scan for one VNI: the id of some registered network that owns a
        subnet with that VNI (the first one in map order), or none. */
    method ScanStale(vni: uint32) returns (found: Option<string>, ghost owner: string)
      ensures found.Some? ==> owner in networks && networks[owner].id == found.value && HasVni(networks[owner].subnets, vni)
      ensures found.None? ==> forall k :: k in networks ==> !HasVni(networks[k].subnets, vni)
    {
      var keys := networks.Keys;
      while keys != {}
        invariant keys <= networks.Keys
        invariant forall k :: k in networks && k !in keys ==> !HasVni(networks[k].subnets, vni)
        decreases keys
      {
        var k :| k in keys;
        var network := networks[k];
        var subs := network.subnets;
        var j := 0;
        while j < |subs|
          invariant 0 <= j <= |subs|
          invariant forall x :: 0 <= x < j ==> subs[x].vni != vni
        {
          if subs[j].vni == vni {
            return Some(network.id), k;
          }
          j := j + 1;
        }
        keys := keys - {k};
      }
      return None, "";
    }

    /** The label loop of CreateNetwork: name, interface, HNS id and the VNI list. */
    static method ReadLabels(genData: map<string, string>) returns (r: Result<CreateLabels>)
      ensures r == ParseLabels(genData)
    {
      var networkName := "";
      var interfaceName := "";
      var hnsId := "";
      var vnis: seq<uint32> := [];
      if NetworkNameLabel in genData {
        networkName := genData[NetworkNameLabel];
      }
      if InterfaceLabel in genData {
        interfaceName := genData[InterfaceLabel];
      }
      if HnsIdLabel in genData {
        hnsId := genData[HnsIdLabel];
      }
      if VxlanIdListLabel in genData {
        var parsed := ParseVniList(genData[VxlanIdListLabel]);
        if parsed.Err? {
          return Err(parsed.error);
        }
        vnis := parsed.value;
      }
      return Ok(CreateLabels(networkName, interfaceName, hnsId, vnis));
    }

    /** The subnet loop of CreateNetwork: subnet i takes pool i, gateway i and VNI i, and
        the stale scan runs for each VNI against the registry. */
    method ScanSubnets(pools: seq<IPAMData>, vnis: seq<uint32>)
      returns (subnets: seq<Subnet>, staleNetworks: seq<string>, ghost stale: seq<Option<string>>, ghost owners: seq<string>)
      requires |vnis| >= |pools|
      ensures subnets == NewSubnets(pools, vnis) && |stale| == |pools|
      ensures forall x :: x in staleNetworks <==> Some(x) in stale
      ensures ScanReport(networks, subnets, stale, owners)
    {
      subnets := [];
      staleNetworks := [];
      stale := [];
      owners := [];
      var i := 0;
      while i < |pools|
        invariant 0 <= i <= |pools|
        invariant subnets == NewSubnets(pools[..i], vnis)
        invariant |stale| == i && |owners| == i
        invariant forall x :: x in staleNetworks <==> Some(x) in stale
        invariant ScanReport(networks, subnets, stale, owners)
      {
        var vni := if |vnis| != 0 then vnis[i] else 0;
        var s := Subnet(vni, Some(pools[i].pool), pools[i].gateway);
        var found, owner := ScanStale(vni);
        if found.Some? {
          staleNetworks := staleNetworks + [found.value];
        }
        stale := stale + [found];
        owners := owners + [owner];
        assert NewSubnets(pools[..i + 1], vnis) == NewSubnets(pools[..i], vnis) + [s];
        subnets := subnets + [s];
        i := i + 1;
      }
      assert pools[..i] == pools;
    }

    /** DeleteNetwork on one stale id, its outcome stated for that id alone: a registered
        entry stays exactly when its HNS delete fails, and an unregistered id can only be
        left registered as the network reloaded from the store. */
    method DeleteStaleId(nid: string)
      modifies this`networks
      ensures networks - {nid} == old(networks) - {nid}
      ensures nid == "" ==> networks == old(networks)
      ensures nid != "" && nid in old(networks) ==>
        if backend.deleteNetwork(old(networks)[nid].hnsId).Fail? then networks == old(networks) else nid !in networks
      ensures nid != "" && nid !in old(networks) && nid in networks ==>
        fresh(networks[nid]) && LoadFromStore(store, backend, nid) == Some(networks[nid].Fields())
      ensures DeletesSucceed(backend) && nid != "" ==> networks == old(networks) - {nid}
    {
      var _ := DeleteNetwork(nid);
    }

    /** The stale-network loop of CreateNetwork: DeleteNetwork on each id found. Only
        those ids can leave or enter the registry. A registered entry whose HNS delete
        fails keeps its network; every other listed entry is gone, unless a repeated id
        reloaded it from the store and that delete failed too. When HNS deletes succeed
        exactly the non-empty ids leave. */
    method DeleteStale(staleNetworks: seq<string>)
      modifies this`networks
      ensures forall k :: k !in staleNetworks || k == "" ==>
        (k in networks <==> k in old(networks)) && (k in networks ==> networks[k] == old(networks)[k])
      ensures forall k :: k in staleNetworks && k != "" && k in old(networks) && backend.deleteNetwork(old(networks)[k].hnsId).Fail? ==>
        k in networks && networks[k] == old(networks)[k]
      ensures forall k :: k in staleNetworks && k != "" && !(k in old(networks) && backend.deleteNetwork(old(networks)[k].hnsId).Fail?) && k in networks ==>
        fresh(networks[k]) && LoadFromStore(store, backend, k) == Some(networks[k].Fields())
      ensures DeletesSucceed(backend) ==> networks == old(networks) - (set x | x in staleNetworks && x != "")
    {
      var j := 0;
      while j < |staleNetworks|
        invariant 0 <= j <= |staleNetworks|
        invariant forall k :: k !in staleNetworks[..j] || k == "" ==>
          (k in networks <==> k in old(networks)) && (k in networks ==> networks[k] == old(networks)[k])
        invariant forall k :: k in staleNetworks[..j] && k != "" && k in old(networks) && backend.deleteNetwork(old(networks)[k].hnsId).Fail? ==>
          k in networks && networks[k] == old(networks)[k]
        invariant forall k :: k in staleNetworks[..j] && k != "" && !(k in old(networks) && backend.deleteNetwork(old(networks)[k].hnsId).Fail?) && k in networks ==>
          fresh(networks[k]) && LoadFromStore(store, backend, k) == Some(networks[k].Fields())
        invariant DeletesSucceed(backend) ==> networks == old(networks) - (set x | x in staleNetworks[..j] && x != "")
      {
        ghost var prev := networks;
        var id := staleNetworks[j];
        DeleteStaleId(id);
        assert staleNetworks[..j + 1] == staleNetworks[..j] + [id];
        forall k | k != id
          ensures (k in networks <==> k in prev) && (k in networks ==> networks[k] == prev[k])
        {
          assert k in networks <==> k in networks - {id};
          assert k in prev <==> k in prev - {id};
        }
        forall k | k in staleNetworks[..j + 1] && k != "" && k in old(networks) && backend.deleteNetwork(old(networks)[k].hnsId).Fail?
          ensures k in networks && networks[k] == old(networks)[k]
        {
          if k != id || k in staleNetworks[..j] {
            assert k in staleNetworks[..j] && k in prev;
          }
        }
        forall k | k in staleNetworks[..j + 1] && k != "" && !(k in old(networks) && backend.deleteNetwork(old(networks)[k].hnsId).Fail?) && k in networks
          ensures fresh(networks[k]) && LoadFromStore(store, backend, k) == Some(networks[k].Fields())
        {
          if k != id {
            assert k in staleNetworks[..j] && k in prev && networks[k] == prev[k];
          } else if k in prev {
            assert k in staleNetworks[..j];
          }
        }
        j := j + 1;
      }
      assert staleNetworks[..j] == staleNetworks;
    }

    /** The end of CreateNetwork: the new network is registered and posted to HNS; when
        HNS fails it is unregistered again. */
    method RegisterNewNetwork(id: string, name: string, hnsId: string, interfaceName: string, subnets: seq<Subnet>)
      returns (n: Network, err: Option<Error>)
      modifies this`networks
      ensures fresh(n) && n.id == id && n.subnets == subnets && n.endpoints == map[] && n.driver == this
      ensures var r := Blank(id).(name := name, hnsId := hnsId, interfaceName := interfaceName, subnets := subnets);
        var created := backend.createNetwork(Descriptor(r));
        && (created.Err? ==> err == Some(created.error) && networks == old(networks) - {id})
        && (created.Ok? ==>
              && err.None? && networks == old(networks)[id := n]
              && n.Fields() == r.(hnsId := created.value.id, providerAddress := created.value.managementIP))
    {
      n := new Network.Create(id, name, hnsId, interfaceName, subnets, this);
      AddNetwork(n);
      err := n.CreateHnsNetwork(backend);
      if err.Some? {
        DeleteNetworkEntry(id);
      }
    }

    /** The stale scan of CreateNetwork and the deletion of what it found: the subnets of
        the new network, and for each the network found owning its VNI, if any. */
    method ClearStale(pools: seq<IPAMData>, vnis: seq<uint32>) returns (subnets: seq<Subnet>, ghost stale: seq<Option<string>>)
      requires |vnis| >= |pools|
      modifies this`networks
      ensures subnets == NewSubnets(pools, vnis) && |stale| == |pools|
      ensures forall k :: Some(k) !in stale || k == "" ==>
        (k in networks <==> k in old(networks)) && (k in networks ==> networks[k] == old(networks)[k])
      ensures StaleScan(old(networks), subnets, stale)
      ensures forall k :: Some(k) in stale && k != "" && k in old(networks) && backend.deleteNetwork(old(networks)[k].hnsId).Fail? ==>
        k in networks && networks[k] == old(networks)[k]
      ensures forall k :: Some(k) in stale && k != "" && !(k in old(networks) && backend.deleteNetwork(old(networks)[k].hnsId).Fail?) && k in networks ==>
        fresh(networks[k]) && LoadFromStore(store, backend, k) == Some(networks[k].Fields())
      ensures DeletesSucceed(backend) ==> networks == old(networks) - StaleIds(stale)
      ensures DeletesSucceed(backend) && old(KeyedRegistry(networks)) && old(UniqueVnis(networks)) ==>
        KeyedRegistry(networks) && UniqueVnis(networks) && Unowned(networks, subnets)
    {
      ghost var before := networks;
      var staleNetworks;
      ghost var owners;
      subnets, staleNetworks, stale, owners := ScanSubnets(pools, vnis);
      ReportIsScan(networks, subnets, stale, owners);
      DeleteStale(staleNetworks);
      assert (set x | x in staleNetworks && x != "") == StaleIds(stale);
      if DeletesSucceed(backend) && KeyedRegistry(before) && UniqueVnis(before) {
        StaleDeletedFreesVnis(before, networks, subnets, stale, owners);
      }
    }

    /** The part of CreateNetwork after the label checks: build the subnets, delete the
        stale networks, name the network, and register it and post it to HNS. */
    method InstallNetwork(id: string, l: CreateLabels, nInfo: Option<Outcome>, pools: seq<IPAMData>)
      returns (err: Option<Error>, ghost stale: seq<Option<string>>)
      requires id != "" && |l.vnis| >= |pools|
      modifies this`networks
      ensures |stale| == |pools|
      ensures forall k :: (k != id || (nInfo.Some? && nInfo.value.Fail?)) && Some(k) !in stale ==>
        (k in networks <==> k in old(networks)) && (k in networks ==> networks[k] == old(networks)[k])
      ensures var r := NewRecord(id, l, pools);
        var created := backend.createNetwork(Descriptor(r));
        && (nInfo.Some? && nInfo.value.Fail? ==> err == Some(Failure(nInfo.value.message)))
        && (!(nInfo.Some? && nInfo.value.Fail?) && created.Err? ==> err == Some(created.error) && id !in networks)
        && (!(nInfo.Some? && nInfo.value.Fail?) && created.Ok? ==>
              && err.None? && id in networks && fresh(networks[id])
              && networks[id].Fields() == r.(hnsId := created.value.id, providerAddress := created.value.managementIP)
              && networks[id].endpoints == map[] && networks[id].driver == this)
      ensures StaleScan(old(networks), NewSubnets(pools, l.vnis), stale)
      ensures forall k :: (k != id || (nInfo.Some? && nInfo.value.Fail?)) && Some(k) in stale && k != "" && k in old(networks) && backend.deleteNetwork(old(networks)[k].hnsId).Fail? ==>
        k in networks && networks[k] == old(networks)[k]
      ensures forall k :: (k != id || (nInfo.Some? && nInfo.value.Fail?)) && Some(k) in stale && k != "" && !(k in old(networks) && backend.deleteNetwork(old(networks)[k].hnsId).Fail?) && k in networks ==>
        fresh(networks[k]) && LoadFromStore(store, backend, k) == Some(networks[k].Fields())
      ensures DeletesSucceed(backend) ==> forall k :: k in StaleIds(stale) && k != id ==> k !in networks
      ensures DeletesSucceed(backend) && id !in old(networks) && old(KeyedRegistry(networks)) && old(UniqueVnis(networks)) ==>
        KeyedRegistry(networks) && UniqueVnis(networks)
    {
      ghost var before := networks;
      ghost var keep := DeletesSucceed(backend) && id !in before && KeyedRegistry(before) && UniqueVnis(before);
      var subnets;
      subnets, stale := ClearStale(pools, l.vnis);
      var name := l.networkName;
      if name == "" {
        name := id;
      }
      if nInfo.Some? && nInfo.value.Fail? {
        return Some(Failure(nInfo.value.message)), stale;
      }
      ghost var deleted := networks;
      var n;
      n, err := RegisterNewNetwork(id, name, l.hnsId, l.interfaceName, subnets);
      if keep {
        AddUnownedNetwork(deleted, n);
      }
    }

    /** The start of CreateNetwork: a network already known under the id, registered or
        in the store, is deleted (a failure is only logged). */
    method DeleteExisting(id: string)
      requires id != ""
      modifies this`networks
      ensures forall k :: k != id ==> (k in networks <==> k in old(networks)) && (k in networks ==> networks[k] == old(networks)[k])
      ensures id in old(networks) && backend.deleteNetwork(old(networks)[id].hnsId).Fail? ==> networks == old(networks)
      ensures !(id in old(networks) && backend.deleteNetwork(old(networks)[id].hnsId).Fail?) && id in networks ==>
        fresh(networks[id]) && LoadFromStore(store, backend, id) == Some(networks[id].Fields())
      ensures DeletesSucceed(backend) ==> networks == old(networks) - {id}
    {
      var existing := Lookup(id);
      if existing != null {
        var _ := DeleteNetwork(id);
      } else {
        assert networks == old(networks) - {id};
      }
    }

    /** The rest of CreateNetwork once the pools are checked and any network under the id
        is deleted: the generic-data checks, then InstallNetwork. */
    method CreateFromOption(id: string, option: Option<map<string, string>>, nInfo: Option<Outcome>, ipV4Data: seq<IPAMData>)
      returns (err: Option<Error>, labels: map<string, string>, ghost stale: seq<Option<string>>)
      requires id != ""
      modifies this`networks
      ensures forall k :: (k != id || (nInfo.Some? && nInfo.value.Fail?)) && Some(k) !in stale ==>
        (k in networks <==> k in old(networks)) && (k in networks ==> networks[k] == old(networks)[k])
      ensures CreateRequest(option, |ipV4Data|).Err? ==>
        err == Some(CreateRequest(option, |ipV4Data|).error) && stale == [] && networks == old(networks)
      ensures CreateRequest(option, |ipV4Data|).Ok? ==>
        var l := CreateRequest(option, |ipV4Data|).value;
        var r := NewRecord(id, l, ipV4Data);
        var created := backend.createNetwork(Descriptor(r));
        && |stale| == |ipV4Data|
        && (nInfo.Some? && nInfo.value.Fail? ==> err == Some(Failure(nInfo.value.message)))
        && (!(nInfo.Some? && nInfo.value.Fail?) && created.Err? ==> err == Some(created.error) && id !in networks)
        && (!(nInfo.Some? && nInfo.value.Fail?) && created.Ok? ==>
              && err.None? && id in networks && fresh(networks[id])
              && networks[id].Fields() == r.(hnsId := created.value.id, providerAddress := created.value.managementIP)
              && networks[id].endpoints == map[] && networks[id].driver == this
              && labels == option.value[HnsIdLabel := created.value.id])
      ensures CreateRequest(option, |ipV4Data|).Ok? ==>
        StaleScan(old(networks), NewRecord(id, CreateRequest(option, |ipV4Data|).value, ipV4Data).subnets, stale)
      ensures DeletesSucceed(backend) && CreateRequest(option, |ipV4Data|).Ok? ==>
        forall k :: k in StaleIds(stale) && k != id ==> k !in networks
      ensures DeletesSucceed(backend) && id !in old(networks) && old(KeyedRegistry(networks)) && old(UniqueVnis(networks)) ==>
        KeyedRegistry(networks) && UniqueVnis(networks)
    {
      labels := if option.Some? then option.value else map[];
      stale := [];
      if option.None? {
        return Some(UnknownGenericData), labels, stale;
      }
      var parsed := ReadLabels(option.value);
      if parsed.Err? {
        return Some(parsed.error), labels, stale;
      }
      var l := parsed.value;
      if |l.vnis| < |ipV4Data| {
        return Some(InsufficientVnis(|l.vnis|)), labels, stale;
      }
      err, stale := InstallNetwork(id, l, nInfo, ipV4Data);
      if err.None? {
        labels := labels[HnsIdLabel := networks[id].hnsId];
      }
    }

    /** CreateNetwork. `labels` is the generic-data map after the call (the HNS id is
        written back on success); `stale` records, per pool, what the stale scan found. */
    method CreateNetwork(id: string, option: Option<map<string, string>>, nInfo: Option<Outcome>, ipV4Data: seq<IPAMData>)
      returns (err: Option<Error>, labels: map<string, string>, ghost stale: seq<Option<string>>)
      modifies this`networks
      ensures id == "" ==> err == Some(InvalidNetworkId) && networks == old(networks)
      ensures id != "" && NoUsablePool(ipV4Data) ==>
        err == Some(EmptyIPv4Pool) && err.value.Kind() == BadRequest && networks == old(networks)
      ensures forall k :: k != id && Some(k) !in stale ==>
        (k in networks <==> k in old(networks)) && (k in networks ==> networks[k] == old(networks)[k])
      ensures ((nInfo.Some? && nInfo.value.Fail?) || CreateRequest(option, |ipV4Data|).Err?) && Some(id) !in stale ==>
        id in old(networks) && backend.deleteNetwork(old(networks)[id].hnsId).Fail? ==>
        id in networks && networks[id] == old(networks)[id]
      ensures id != "" && !NoUsablePool(ipV4Data) && CreateRequest(option, |ipV4Data|).Err? ==>
        err == Some(CreateRequest(option, |ipV4Data|).error) && stale == []
      ensures id != "" && !NoUsablePool(ipV4Data) && CreateRequest(option, |ipV4Data|).Ok? ==>
        var l := CreateRequest(option, |ipV4Data|).value;
        var r := NewRecord(id, l, ipV4Data);
        var created := backend.createNetwork(Descriptor(r));
        && |stale| == |ipV4Data|
        && (nInfo.Some? && nInfo.value.Fail? ==> err == Some(Failure(nInfo.value.message)))
        && (!(nInfo.Some? && nInfo.value.Fail?) && created.Err? ==> err == Some(created.error) && id !in networks)
        && (!(nInfo.Some? && nInfo.value.Fail?) && created.Ok? ==>
              && err.None? && id in networks && fresh(networks[id])
              && networks[id].Fields() == r.(hnsId := created.value.id, providerAddress := created.value.managementIP)
              && networks[id].endpoints == map[] && networks[id].driver == this
              && labels == option.value[HnsIdLabel := created.value.id])
      ensures DeletesSucceed(backend) && id != "" && !NoUsablePool(ipV4Data) && CreateRequest(option, |ipV4Data|).Ok? ==>
        && StaleScan(old(networks) - {id}, NewRecord(id, CreateRequest(option, |ipV4Data|).value, ipV4Data).subnets, stale)
        && (forall k :: k in StaleIds(stale) && k != id ==> k !in networks)
      ensures DeletesSucceed(backend) && old(KeyedRegistry(networks)) && old(UniqueVnis(networks)) ==>
        KeyedRegistry(networks) && UniqueVnis(networks)
    {
      labels := if option.Some? then option.value else map[];
      stale := [];
      if id == "" {
        return Some(InvalidNetworkId), labels, stale;
      }
      if |ipV4Data| == 0 || FormatCIDR(ipV4Data[0].pool) == "0.0.0.0/0" {
        return Some(EmptyIPv4Pool), labels, stale;
      }
      ghost var before := networks;
      DeleteExisting(id);
      if DeletesSucceed(backend) {
        RegistryWithout(before, id);
      }
      err, labels, stale := CreateFromOption(id, option, nInfo, ipV4Data);
    }

    /** convertToOverlayNetwork: a fresh network owned by this driver, with the fields
        converted from the descriptor and no endpoints; null where the conversion meets a
        null policy (the source dereferences the nil pointer there). */
    method ConvertToOverlayNetwork(v: HnsNetwork) returns (n: Network?)
      ensures n == null <==> ConvertedRecord(v).None?
      ensures n != null ==>
        && fresh(n) && ConvertedRecord(v) == Some(n.Fields()) && n.id == v.name
        && n.endpoints == map[] && n.driver == this
    {
      var subnets := ConvertSubnets(v.subnets);
      if subnets.None? {
        return null;
      }
      n := new Network.Create(v.name, "", v.id, "", subnets.value, this);
      n.providerAddress := v.managementIP;
    }

    /** One overlay descriptor of the restore loop: convert it and, when it converts,
        register the network under its name and restore its endpoints. */
    method RestoreOne(v: HnsNetwork, parseMac: string -> Option<seq<Byte>>) returns (n: Network?)
      modifies this`networks
      ensures n == null <==> ConvertedRecord(v).None?
      ensures n == null ==> networks == old(networks)
      ensures n != null ==>
        && networks == old(networks)[v.name := n]
        && fresh(n)
        && RestoredEntry(this, n, v, backend.listEndpoints, parseMac)
    {
      n := ConvertToOverlayNetwork(v);
      if n == null {
        return;
      }
      AddNetwork(n);
      var _ := n.RestoreNetworkEndpoints(backend.listEndpoints, parseMac);
    }

    /** A step of the restore loop on an overlay descriptor, stated against the progress
        of the whole restore. */
    method RestoreNext(v: HnsNetwork, parseMac: string -> Option<seq<Byte>>,
                       ghost before: map<string, Network>, ghost restored: map<string, HnsNetwork>)
        returns (ok: bool)
      requires RestoreProgress(this, before, networks, restored, backend.listEndpoints, parseMac)
      modifies this`networks
      ensures ok <==> ConvertedRecord(v).Some?
      ensures !ok ==> networks == old(networks)
      ensures ok ==> RestoreProgress(this, before, networks, restored[v.name := v], backend.listEndpoints, parseMac)
    {
      ghost var mid := networks;
      var n := RestoreOne(v, parseMac);
      if n == null {
        return false;
      }
      assert HoldsRestored(this, mid, restored, backend.listEndpoints, parseMac);
      HoldsRestoredStep(this, mid, n, restored, v, backend.listEndpoints, parseMac);
      RestoredKeysStep(before, mid, networks, restored, v);
      return true;
    }

    /** restoreHNSNetworks: a failed listing is returned and changes nothing; otherwise
        each overlay descriptor, in order, is converted, registered under its name and
        given the endpoints HNS lists for it. A null policy stops the restore with
        NilVsidPolicy. Entries under other names are left as they were. */
    method RestoreHNSNetworks(parseMac: string -> Option<seq<Byte>>) returns (err: Option<Error>)
      modifies this`networks
      ensures backend.listNetworks.Err? ==> err == Some(backend.listNetworks.error) && networks == old(networks)
      ensures backend.listNetworks.Ok? ==>
        var list := backend.listNetworks.value;
        var restored := RestoredDescriptors(list);
        && (err.None? <==> Restorable(list))
        && (err.Some? ==> err == Some(NilVsidPolicy))
        && old(networks).Keys <= networks.Keys
        && (forall k :: k in networks && k !in restored ==> k in old(networks) && networks[k] == old(networks)[k])
        && (err.None? ==>
              && networks.Keys == old(networks).Keys + restored.Keys
              && HoldsRestored(this, networks, restored, backend.listEndpoints, parseMac))
    {
      if backend.listNetworks.Err? {
        return Some(backend.listNetworks.error);
      }
      err := RestoreListed(backend.listNetworks.value, parseMac);
    }

    /** The loop of restoreHNSNetworks over the descriptors HNS listed. */
    method RestoreListed(list: seq<HnsNetwork>, parseMac: string -> Option<seq<Byte>>) returns (err: Option<Error>)
      modifies this`networks
      ensures var restored := RestoredDescriptors(list);
        && (err.None? <==> Restorable(list))
        && (err.Some? ==> err == Some(NilVsidPolicy))
        && old(networks).Keys <= networks.Keys
        && (forall k :: k in networks && k !in restored ==> k in old(networks) && networks[k] == old(networks)[k])
        && (err.None? ==>
              && networks.Keys == old(networks).Keys + restored.Keys
              && HoldsRestored(this, networks, restored, backend.listEndpoints, parseMac))
    {
      ghost var restored: map<string, HnsNetwork> := map[];
      var i := 0;
      while i < |list|
        invariant 0 <= i <= |list|
        invariant restored == RestoredDescriptors(list[..i])
        invariant Restorable(list[..i])
        invariant RestoreProgress(this, old(networks), networks, restored, backend.listEndpoints, parseMac)
      {
        var v := list[i];
        RestoreStep(list, i);
        if v.networkType == NetworkType {
          var ok := RestoreNext(v, parseMac, old(networks), restored);
          if !ok {
            RestoreStops(list, i);
            return Some(NilVsidPolicy);
          }
          restored := restored[v.name := v];
        }
        i := i + 1;
      }
      assert list[..i] == list;
      return None;
    }

    /** nodeJoin: one node-discovery event against the join state machine. The self
        check only logs, so its answer does not change the outcome. */
    method NodeJoin(address: string, bindAddress: string, self: bool, listing: AddrListing,
                    serfInit: Outcome, serfJoin: Outcome)
      modifies this`serfUp, this`joinLatch, this`neighIP, this`advertiseAddress, this`bindAddress,
               this`joinAttempts, this`localDbPushes
      ensures JoinView() == NodeJoinStep(old(JoinView()), NodeEvent(address, bindAddress, self),
                                         JoinOracle(store.Some?, serfInit, serfJoin))
    {
      if self && !serfUp {
        var _ := ValidateSelf(address, listing);
        advertiseAddress := address;
        this.bindAddress := bindAddress;
        if store.Some? {
          if serfInit.Fail? {
            return;
          }
          serfUp := true;
        }
      }
      if !self {
        neighIP := address;
      }
      if serfUp && neighIP != "" && !joinLatch {
        joinLatch := true;
        joinAttempts := joinAttempts + 1;
        if serfJoin.Fail? {
          joinLatch := false;
          return;
        }
        localDbPushes := localDbPushes + 1;
      }
    }

    /** DiscoverNew: a node event needs node data with an address and then joins; a
        datastore configuration is refused when a store is configured or the data has the
        wrong type, and otherwise opens the store; any other event is ignored. */
    method DiscoverNew(dType: DiscoveryType, data: DiscoveryData, open: (string, string) -> StoreOpen,
                       listing: AddrListing, serfInit: Outcome, serfJoin: Outcome)
      returns (err: Option<Error>)
      modifies this`store, this`serfUp, this`joinLatch, this`neighIP, this`advertiseAddress, this`bindAddress,
               this`joinAttempts, this`localDbPushes
      ensures dType == NodeDiscovery && (!data.NodeDiscoveryData? || data.address == "") ==>
        err == Some(InvalidDiscoveryData) && JoinView() == old(JoinView()) && store == old(store)
      ensures dType == NodeDiscovery && data.NodeDiscoveryData? && data.address != "" ==>
        && err.None? && store == old(store)
        && JoinView() == NodeJoinStep(old(JoinView()), NodeEvent(data.address, data.bindAddress, data.self),
                                      JoinOracle(store.Some?, serfInit, serfJoin))
      ensures dType == DatastoreConfig ==> JoinView() == old(JoinView())
      ensures dType == DatastoreConfig && old(store).Some? ==>
        err == Some(StoreAlreadyConfigured) && err.value.Kind() == Forbidden && store == old(store)
      ensures dType == DatastoreConfig && old(store).None? && !data.DatastoreConfigData? ==>
        err == Some(IncorrectStoreConfig) && store.None?
      ensures dType == DatastoreConfig && old(store).None? && data.DatastoreConfigData? ==>
        match open(data.provider, data.address)
        case OpenFailed(message) => err == Some(StoreInitFailure(message)) && store.None?
        case Opened(s) => err.None? && store == Some(s)
      ensures dType == OtherDiscovery ==> err.None? && JoinView() == old(JoinView()) && store == old(store)
    {
      match dType
      case NodeDiscovery =>
        if !data.NodeDiscoveryData? || data.address == "" {
          return Some(InvalidDiscoveryData);
        }
        NodeJoin(data.address, data.bindAddress, data.self, listing, serfInit, serfJoin);
        return None;
      case DatastoreConfig =>
        if store.Some? {
          return Some(StoreAlreadyConfigured);
        }
        if !data.DatastoreConfigData? {
          return Some(IncorrectStoreConfig);
        }
        var result := open(data.provider, data.address);
        if result.OpenFailed? {
          return Some(StoreInitFailure(result.message));
        }
        store := Some(result.store);
        return None;
      case OtherDiscovery =>
        return None;
    }
  }

}
