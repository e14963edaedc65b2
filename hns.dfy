/** The Host Networking Service side of the driver: the network and endpoint
    descriptors it exchanges, the descriptor the driver builds for a network
    (one VSID policy per subnet), and the conversions of listed descriptors back
    into networks and endpoints when the driver restores its state. */
module Hns {
  import opened Base
  import opened Text
  import opened Net
  import opened JsonModel
  import opened Record

  /** `hcsshim.Subnet`: policies are raw JSON documents. */
  datatype HnsSubnet = HnsSubnet(addressPrefix: string, gatewayAddress: string, policies: seq<Document>)

  /** `hcsshim.HNSNetwork`, the fields the driver reads or writes. */
  datatype HnsNetwork = HnsNetwork(
    id: string,
    name: string,
    networkType: string,
    networkAdapterName: string,
    managementIP: string,
    subnets: seq<HnsSubnet>)

  /** `hcsshim.HNSEndpoint`, the fields the driver reads. */
  datatype HnsEndpoint = HnsEndpoint(
    id: string,
    name: string,
    virtualNetwork: string,
    macAddress: string,
    ipAddress: IP,
    isRemoteEndpoint: bool)

  /** What the service answers: to a POST of a network descriptor, to a DELETE of a
      network id, and to the GET listings of networks and endpoints. */
  datatype Backend = Backend(
    createNetwork: HnsNetwork -> Result<HnsNetwork>,
    deleteNetwork: string -> Outcome,
    listNetworks: Result<seq<HnsNetwork>>,
    listEndpoints: Result<seq<HnsEndpoint>>)

  /** The type tag of this driver's networks. */
  const NetworkType: string := "overlay"

  /** `json.Marshal(hcsshim.VsidPolicy{Type: "VSID", VSID: vni})`. */
  function VsidPolicyDoc(vni: uint32): Document {
    Parsed(JObject(map["Type" := JString("VSID"), "VSID" := JNumber(vni)]))
  }

  /** The HNS subnet built for one subnet of the network. The gateway pointer is
      never nil in this driver, so the gateway address is always written. */
  function HnsSubnetOf(s: Subnet): HnsSubnet {
    HnsSubnet(FormatPrefix(s.subnetIP), FormatIP(s.gwIP), [VsidPolicyDoc(s.vni)])
  }

  function HnsSubnetsOf(subnets: seq<Subnet>): seq<HnsSubnet> {
    seq(|subnets|, i requires 0 <= i < |subnets| => HnsSubnetOf(subnets[i]))
  }

  /** The descriptor createHnsNetwork posts for a network. */
  function Descriptor(r: NetRecord): HnsNetwork {
    HnsNetwork("", r.name, NetworkType, r.interfaceName, "", HnsSubnetsOf(r.subnets))
  }

  /** `hcsshim.VsidPolicy` as the restore loop decodes into it. */
  datatype VsidPolicy = VsidPolicy(policyType: string, vsid: nat)

  /** The result of `json.Unmarshal(policy, &vsidPolicy)`: the policy struct with every
      well-typed field written (`ok` when no field was ill-typed), or a nil policy pointer
      (the document was JSON null). */
  datatype PolicyDecode = Decoded(policy: VsidPolicy, ok: bool) | NilPolicy

  /** Decoding one policy document into the struct left by the previous ones: a
      malformed document or a non-object changes nothing and fails; in an object, a
      null field is skipped and a field of the wrong type is skipped and fails. */
  function DecodePolicy(p: VsidPolicy, doc: Document): PolicyDecode {
    match doc
    case Malformed => Decoded(p, false)
    case Parsed(j) =>
      match j
      case JNull => NilPolicy
      case JObject(f) =>
        var t := FieldValue(f, "Type", Text);
        var v := FieldValue(f, "VSID", Number(Two64));
        var ok := !Misfit(f, "Type", Text) && !Misfit(f, "VSID", Number(Two64)) && !t.Conflict? && !v.Conflict?;
        Decoded(VsidPolicy(if t.Read? then t.value.s else p.policyType, if v.Read? then v.value.n else p.vsid), ok)
      case _ => Decoded(p, false)
  }

  /** The restore loop over one subnet's policies: it stops at the first policy that
      decodes without error to type "VSID"; the struct is shared by all iterations.
      None: a null policy left a nil pointer that the loop then dereferences. */
  function ScanPolicies(p: VsidPolicy, policies: seq<Document>): Option<VsidPolicy>
    decreases |policies|
  {
    if |policies| == 0 then Some(p)
    else
      match DecodePolicy(p, policies[0])
      case NilPolicy => None
      case Decoded(q, ok) => if ok && q.policyType == "VSID" then Some(q) else ScanPolicies(q, policies[1..])
  }

  /** The VNI a restored subnet gets: `uint32(vsidPolicy.VSID)` after the scan. */
  function VniOf(policies: seq<Document>): Option<uint32> {
    match ScanPolicies(VsidPolicy("", 0), policies)
    case None => None
    case Some(p) => Some(ToUint32(p.vsid))
  }

  /** The subnets restored from an HNS network, in order: a subnet whose address prefix
      does not parse is skipped (after its policies were scanned); a kept subnet gets the
      masked network of its prefix. None: the scan hit a nil policy. */
  function ConvertedSubnets(hs: seq<HnsSubnet>): (r: Option<seq<Subnet>>)
    ensures r.Some? ==> |r.value| <= |hs|
    ensures r.Some? ==> forall i :: 0 <= i < |r.value| ==> r.value[i].subnetIP.Some? && Canonical(r.value[i].subnetIP.value)
  {
    if |hs| == 0 then Some([])
    else
      var last := hs[|hs| - 1];
      match ConvertedSubnets(hs[..|hs| - 1])
      case None => None
      case Some(front) =>
        match VniOf(last.policies)
        case None => None
        case Some(vni) =>
          match ParseCIDR(last.addressPrefix)
          case None => Some(front)
          case Some(p) =>
            NetworkOfAddress(p.ip, p.ones);
            Some(front + [Subnet(vni, Some(Prefix(Mask(p.ip, p.ones), p.ones)), ParseIP(last.gatewayAddress))])
  }

  /** The policy loop of convertToOverlayNetwork for one subnet. */
  method SubnetVni(policies: seq<Document>) returns (vni: Option<uint32>)
    ensures vni == VniOf(policies)
  {
    var policy := VsidPolicy("", 0);
    var i := 0;
    while i < |policies|
      invariant 0 <= i <= |policies|
      invariant ScanPolicies(VsidPolicy("", 0), policies) == ScanPolicies(policy, policies[i..])
    {
      assert policies[i..][1..] == policies[i + 1..];
      var decoded := DecodePolicy(policy, policies[i]);
      if decoded.NilPolicy? {
        return None;
      }
      policy := decoded.policy;
      if decoded.ok && policy.policyType == "VSID" {
        break;
      }
      i := i + 1;
    }
    return Some(ToUint32(policy.vsid));
  }

  /** The subnet loop of convertToOverlayNetwork. */
  method ConvertSubnets(hs: seq<HnsSubnet>) returns (r: Option<seq<Subnet>>)
    ensures r == ConvertedSubnets(hs)
  {
    var subnets: seq<Subnet> := [];
    var i := 0;
    while i < |hs|
      invariant 0 <= i <= |hs|
      invariant ConvertedSubnets(hs[..i]) == Some(subnets)
    {
      var hnsSubnet := hs[i];
      assert hs[..i + 1][..i] == hs[..i];
      var vni := SubnetVni(hnsSubnet.policies);
      if vni.None? {
        NilPolicyStops(hs, i);
        return None;
      }
      var gwIP := ParseIP(hnsSubnet.gatewayAddress);
      var subnetIP := ParseCIDR(hnsSubnet.addressPrefix);
      if subnetIP.Some? {
        var p := subnetIP.value;
        subnets := subnets + [Subnet(vni.value, Some(Prefix(Mask(p.ip, p.ones), p.ones)), gwIP)];
      }
      i := i + 1;
    }
    assert hs[..i] == hs;
    return Some(subnets);
  }

  /** A nil policy in one subnet makes the whole conversion fail. */
  lemma {:induction false} NilPolicyStops(hs: seq<HnsSubnet>, i: nat)
    requires i < |hs| && ConvertedSubnets(hs[..i]).Some? && VniOf(hs[i].policies).None?
    ensures ConvertedSubnets(hs).None?
    decreases |hs|
  {
    var front := hs[..|hs| - 1];
    if |hs| - 1 == i {
      ConvertedSubnetsNil(hs, front);
    } else {
      assert front[..i] == hs[..i] && front[i] == hs[i];
      NilPolicyStops(front, i);
      ConvertedSubnetsNone(hs, front);
    }
  }

  /** A last subnet with a null policy fails the conversion. */
  lemma ConvertedSubnetsNil(hs: seq<HnsSubnet>, front: seq<HnsSubnet>)
    requires |hs| > 0 && front == hs[..|hs| - 1]
    requires ConvertedSubnets(front).Some? && VniOf(hs[|hs| - 1].policies).None?
    ensures ConvertedSubnets(hs).None?
  {
  }

  /** A failed conversion of the first subnets fails the whole conversion. */
  lemma ConvertedSubnetsNone(hs: seq<HnsSubnet>, front: seq<HnsSubnet>)
    requires |hs| > 0 && front == hs[..|hs| - 1] && ConvertedSubnets(front).None?
    ensures ConvertedSubnets(hs).None?
  {
  }

  /** convertToOverlayNetwork: the network takes its id from the HNS name, its hnsId
      from the HNS id and its provider address from the management IP. */
  function ConvertedRecord(v: HnsNetwork): Option<NetRecord> {
    match ConvertedSubnets(v.subnets)
    case None => None
    case Some(subnets) => Some(NetRecord(v.name, "", v.id, 0, false, v.managementIP, "", subnets, false))
  }

  /** An endpoint of an overlay network. */
  datatype Endpoint = Endpoint(
    id: string,
    profileId: string,
    nid: string,
    remote: bool,
    mac: seq<Byte>,
    addr: IP,
    addrOnes: MaskLen)

  /** convertToOverlayEndpoint: none when the MAC address does not parse; the address
      is the HNS endpoint's IP with a host (/32) mask. */
  function ConvertToOverlayEndpoint(nid: string, v: HnsEndpoint, parseMac: string -> Option<seq<Byte>>): (r: Option<Endpoint>)
    ensures r.None? <==> parseMac(v.macAddress).None?
    ensures r.Some? ==> r.value == Endpoint(v.name, v.id, nid, v.isRemoteEndpoint, parseMac(v.macAddress).value, v.ipAddress, 32)
  {
    match parseMac(v.macAddress)
    case None => None
    case Some(mac) => Some(Endpoint(v.name, v.id, nid, v.isRemoteEndpoint, mac, v.ipAddress, 32))
  }

  /** restoreNetworkEndpoints over a listing: endpoints of other HNS networks and those
      that do not convert are skipped; the others are added under their id, in order. */
  function RestoredEndpoints(eps: map<string, Endpoint>, list: seq<HnsEndpoint>, nid: string, hnsId: string,
                             parseMac: string -> Option<seq<Byte>>): map<string, Endpoint>
  {
    if |list| == 0 then eps
    else
      var front := RestoredEndpoints(eps, list[..|list| - 1], nid, hnsId, parseMac);
      var v := list[|list| - 1];
      if v.virtualNetwork != hnsId then front
      else
        match ConvertToOverlayEndpoint(nid, v, parseMac)
        case None => front
        case Some(ep) => front[ep.id := ep]
  }

  /** restoreHNSNetworks over a listing: the overlay descriptors, keyed by HNS name; a
      later descriptor with the same name replaces an earlier one. */
  function RestoredDescriptors(list: seq<HnsNetwork>): map<string, HnsNetwork> {
    if |list| == 0 then map[]
    else
      var front := RestoredDescriptors(list[..|list| - 1]);
      var v := list[|list| - 1];
      if v.networkType != NetworkType then front else front[v.name := v]
  }

  // Properties of the translation.

  /** The descriptor built for a network: its name, the overlay type and the adapter of
      the network, and one HNS subnet per subnet, in order, each with the subnet's prefix
      and gateway as text and a single policy that decodes to type VSID with its VNI. */
  lemma DescriptorShape(r: NetRecord)
    ensures var d := Descriptor(r);
      && d.name == r.name && d.networkType == "overlay" && d.networkAdapterName == r.interfaceName
      && |d.subnets| == |r.subnets|
      && forall i :: 0 <= i < |r.subnets| ==>
           && d.subnets[i].addressPrefix == FormatPrefix(r.subnets[i].subnetIP)
           && d.subnets[i].gatewayAddress == FormatIP(r.subnets[i].gwIP)
           && |d.subnets[i].policies| == 1
           && DecodePolicy(VsidPolicy("", 0), d.subnets[i].policies[0]) == Decoded(VsidPolicy("VSID", r.subnets[i].vni), true)
  {
    forall i | 0 <= i < |r.subnets|
      ensures DecodePolicy(VsidPolicy("", 0), VsidPolicyDoc(r.subnets[i].vni)) == Decoded(VsidPolicy("VSID", r.subnets[i].vni), true)
    {
      DecodeTypedPolicy(VsidPolicy("", 0), "VSID", r.subnets[i].vni);
    }
  }

  /** The two keys of a policy name different fields. */
  lemma PolicyKeysDistinct()
    ensures !FoldEq("VSID", "Type") && !FoldEq("Type", "VSID")
  {
    assert FoldChar("VSID"[0]) == 'v' && FoldChar("Type"[0]) == 't';
  }

  /** A policy object with a string "Type" and a 64-bit "VSID" decodes, over any earlier
      struct, to exactly those two values without error. */
  lemma DecodeTypedPolicy(p: VsidPolicy, t: string, vsid: nat)
    requires vsid < Two64
    ensures DecodePolicy(p, Parsed(JObject(map["Type" := JString(t), "VSID" := JNumber(vsid)]))) ==
      Decoded(VsidPolicy(t, vsid), true)
  {
    var f := map["Type" := JString(t), "VSID" := JNumber(vsid)];
    assert f.Keys == {"Type", "VSID"};
    PolicyKeysDistinct();
    FieldValueOnly(f, "Type", Text, "Type");
    FieldValueOnly(f, "VSID", Number(Two64), "VSID");
  }

  /** A policy the driver wrote decides the VNI of the subnet that carries it first. */
  lemma VsidPolicyFirst(vni: uint32, rest: seq<Document>)
    ensures VniOf([VsidPolicyDoc(vni)] + rest) == Some(vni)
  {
    var policies := [VsidPolicyDoc(vni)] + rest;
    assert policies[0] == VsidPolicyDoc(vni);
    DecodeTypedPolicy(VsidPolicy("", 0), "VSID", vni);
  }

  /** A subnet without policies is restored with VNI 0. */
  lemma NoPoliciesVniZero()
    ensures VniOf([]) == Some(0)
  {
  }

  /** A policy document that leaves the VSID field alone and is not JSON null: no key
      naming the field holds a 64-bit number. */
  predicate KeepsVsid(d: Document) {
    d != Parsed(JNull) && (d.Parsed? && d.json.JObject? ==> !FieldValue(d.json.fields, "VSID", Number(Two64)).Read?)
  }

  /** Policies that all leave the VSID field alone end the scan with the VSID it started
      with, whether or not one of them stops it. */
  lemma {:induction false} ScanKeepsVsid(p: VsidPolicy, policies: seq<Document>)
    requires forall i :: 0 <= i < |policies| ==> KeepsVsid(policies[i])
    ensures ScanPolicies(p, policies).Some? && ScanPolicies(p, policies).value.vsid == p.vsid
    decreases |policies|
  {
    if |policies| > 0 {
      match DecodePolicy(p, policies[0])
      case NilPolicy =>
        assert false;
      case Decoded(q, ok) =>
        assert q.vsid == p.vsid;
        if !(ok && q.policyType == "VSID") {
          ScanKeepsVsid(q, policies[1..]);
        }
    }
  }

  /** The policy struct is shared: a policy of another type that carries a VSID key
      sets the VNI when none of the policies after it sets the VSID field again. */
  lemma VsidCarriedOver(vsid: nat, rest: seq<Document>)
    requires vsid < Two64
    requires forall i :: 0 <= i < |rest| ==> KeepsVsid(rest[i])
    ensures VniOf([Parsed(JObject(map["Type" := JString("ACL"), "VSID" := JNumber(vsid)]))] + rest) == Some(vsid % Two32)
  {
    var doc := Parsed(JObject(map["Type" := JString("ACL"), "VSID" := JNumber(vsid)]));
    var policies := [doc] + rest;
    DecodeTypedPolicy(VsidPolicy("", 0), "ACL", vsid);
    assert policies[0] == doc && policies[1..] == rest;
    ScanKeepsVsid(VsidPolicy("ACL", vsid), rest);
  }

  /** One built HNS subnet converts back to the subnet it was built from. */
  lemma ConvertBuiltSubnet(s: Subnet)
    requires s.subnetIP.Some? && Canonical(s.subnetIP.value)
    ensures var h := HnsSubnetOf(s);
      && VniOf(h.policies) == Some(s.vni)
      && ParseCIDR(h.addressPrefix) == s.subnetIP
      && ParseIP(h.gatewayAddress) == s.gwIP
  {
    VsidPolicyFirst(s.vni, []);
    assert [VsidPolicyDoc(s.vni)] + [] == [VsidPolicyDoc(s.vni)];
    ParseFormatPrefix(s.subnetIP);
    ParseFormatIP(s.gwIP);
  }

  /** One step of the subnet conversion: a last subnet with a VNI and a parsed prefix is
      appended, masked, to what the others convert to. */
  lemma ConvertedSubnetsStep(hs: seq<HnsSubnet>, front: seq<Subnet>, vni: uint32, p: Prefix)
    requires |hs| > 0 && ConvertedSubnets(hs[..|hs| - 1]) == Some(front)
    requires VniOf(hs[|hs| - 1].policies) == Some(vni) && ParseCIDR(hs[|hs| - 1].addressPrefix) == Some(p)
    ensures ConvertedSubnets(hs) ==
      Some(front + [Subnet(vni, Some(Prefix(Mask(p.ip, p.ones), p.ones)), ParseIP(hs[|hs| - 1].gatewayAddress))])
  {
  }

  /** The descriptor subnets of all but the last subnet, and of the last one. */
  lemma HnsSubnetsOfLast(subnets: seq<Subnet>)
    requires |subnets| > 0
    ensures var hs := HnsSubnetsOf(subnets); var n := |subnets| - 1;
      |hs| == |subnets| && hs[..n] == HnsSubnetsOf(subnets[..n]) && hs[n] == HnsSubnetOf(subnets[n])
  {
  }

  /** The inductive step of the round trip: a built subnet after subnets that convert
      back to `front` converts back onto `front`. */
  lemma ConvertBuiltLast(hs: seq<HnsSubnet>, front: seq<Subnet>, s: Subnet)
    requires |hs| > 0 && ConvertedSubnets(hs[..|hs| - 1]) == Some(front)
    requires hs[|hs| - 1] == HnsSubnetOf(s) && s.subnetIP.Some? && Canonical(s.subnetIP.value)
    ensures ConvertedSubnets(hs) == Some(front + [s])
  {
    var p := s.subnetIP.value;
    ConvertBuiltSubnet(s);
    ConvertedSubnetsStep(hs, front, s.vni, p);
  }

  /** Round trip of the outbound and inbound translations: restoring the subnets of a
      descriptor the driver built gives back every subnet's prefix, gateway and VNI, in
      order, provided each prefix is a (non-nil) network address. */
  lemma {:induction false} ConvertBuiltSubnets(subnets: seq<Subnet>)
    requires forall i :: 0 <= i < |subnets| ==> subnets[i].subnetIP.Some? && Canonical(subnets[i].subnetIP.value)
    ensures ConvertedSubnets(HnsSubnetsOf(subnets)) == Some(subnets)
  {
    if |subnets| > 0 {
      var n := |subnets| - 1;
      ConvertBuiltSubnets(subnets[..n]);
      HnsSubnetsOfLast(subnets);
      ConvertBuiltLast(HnsSubnetsOf(subnets), subnets[..n], subnets[n]);
      LastSplit(subnets);
    }
  }

  /** Restoring a network the driver created in HNS (named after its id, as it is when
      no network-name label is given) gives back its id, HNS id, provider address and
      subnets. */
  lemma RestoreCreatedNetwork(r: NetRecord, response: HnsNetwork)
    requires r.name == r.id
    requires forall i :: 0 <= i < |r.subnets| ==> r.subnets[i].subnetIP.Some? && Canonical(r.subnets[i].subnetIP.value)
    ensures var listed := Descriptor(r).(id := response.id, managementIP := response.managementIP);
      && listed.networkType == NetworkType
      && ConvertedRecord(listed) == Some(NetRecord(r.id, "", response.id, 0, false, response.managementIP, "", r.subnets, false))
  {
    ConvertBuiltSubnets(r.subnets);
  }

  /** The restored endpoints are the previous ones plus converted endpoints of this HNS
      network, each under its own id; every endpoint of this HNS network that converts
      is present. */
  lemma {:induction false} RestoredEndpointsFilter(eps: map<string, Endpoint>, list: seq<HnsEndpoint>, nid: string,
                                                    hnsId: string, parseMac: string -> Option<seq<Byte>>)
    ensures var out := RestoredEndpoints(eps, list, nid, hnsId, parseMac);
      && (forall k :: k in out ==>
            ((k in eps && out[k] == eps[k]) ||
             exists i :: 0 <= i < |list| && list[i].virtualNetwork == hnsId && list[i].name == k &&
                         ConvertToOverlayEndpoint(nid, list[i], parseMac) == Some(out[k])))
      && (forall i :: 0 <= i < |list| && list[i].virtualNetwork == hnsId && parseMac(list[i].macAddress).Some? ==>
            list[i].name in out)
      && eps.Keys <= out.Keys
  {
    if |list| > 0 {
      var n := |list| - 1;
      RestoredEndpointsFilter(eps, list[..n], nid, hnsId, parseMac);
      var front := RestoredEndpoints(eps, list[..n], nid, hnsId, parseMac);
      var out := RestoredEndpoints(eps, list, nid, hnsId, parseMac);
      forall k | k in out
        ensures (k in eps && out[k] == eps[k]) ||
          exists i :: 0 <= i < |list| && list[i].virtualNetwork == hnsId && list[i].name == k &&
                      ConvertToOverlayEndpoint(nid, list[i], parseMac) == Some(out[k])
      {
        if k in front && out[k] == front[k] {
          if !(k in eps && out[k] == eps[k]) {
            var i :| 0 <= i < n && list[..n][i].virtualNetwork == hnsId && list[..n][i].name == k &&
                     ConvertToOverlayEndpoint(nid, list[..n][i], parseMac) == Some(front[k]);
            assert list[i] == list[..n][i];
          }
        } else {
          assert list[n].name == k;
        }
      }
      forall i | 0 <= i < |list| && list[i].virtualNetwork == hnsId && parseMac(list[i].macAddress).Some?
        ensures list[i].name in out
      {
        if i < n {
          assert list[..n][i] == list[i];
        }
      }
    }
  }

  /** The restored descriptors are exactly the overlay descriptors, each under its name. */
  lemma {:induction false} RestoredDescriptorsFilter(list: seq<HnsNetwork>)
    ensures var m := RestoredDescriptors(list);
      && (forall k :: k in m ==> m[k].networkType == NetworkType && m[k].name == k && m[k] in list)
      && (forall i :: 0 <= i < |list| && list[i].networkType == NetworkType ==> list[i].name in m)
  {
    if |list| > 0 {
      var n := |list| - 1;
      RestoredDescriptorsFilter(list[..n]);
      var m := RestoredDescriptors(list);
      var front := RestoredDescriptors(list[..n]);
      forall k | k in m ensures m[k].networkType == NetworkType && m[k].name == k && m[k] in list {
        if k != list[n].name || list[n].networkType != NetworkType {
          assert m[k] == front[k];
          var i :| 0 <= i < n && list[..n][i] == front[k];
          assert list[i] == m[k];
        } else {
          assert m[k] == list[n];
        }
      }
      forall i | 0 <= i < |list| && list[i].networkType == NetworkType ensures list[i].name in m {
        if i < n {
          assert list[..n][i] == list[i];
        }
      }
    }
  }
}
