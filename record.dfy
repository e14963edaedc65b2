/** The network's persisted record: the subnet and network values, the JSON that
    `Value` writes, what `SetValue` makes of a stored document (current map shape or
    legacy bare subnet array), the subnet lookup it relies on, and the store keys. */
module Record {
  import opened Base
  import opened Net
  import opened JsonModel

  /** A subnet of an overlay network: its VNI, its prefix (nil when the stored text did not
      parse) and its gateway. */
  datatype Subnet = Subnet(vni: uint32, subnetIP: Option<Prefix>, gwIP: IP)

  /** The value fields of a network (everything but its endpoints and its driver). */
  datatype NetRecord = NetRecord(
    id: string,
    name: string,
    hnsId: string,
    dbIndex: nat,
    dbExists: bool,
    providerAddress: string,
    interfaceName: string,
    subnets: seq<Subnet>,
    secure: bool)

  /** `&network{id: id}`: every other field at its zero value. */
  function Blank(id: string): NetRecord {
    NetRecord(id, "", "", 0, false, "", "", [], false)
  }

  /** The stored form of one subnet. */
  datatype SubnetJSON = SubnetJSON(subnetIP: string, gwIP: string, vni: uint32)

  function SubnetToJSON(s: Subnet): SubnetJSON {
    SubnetJSON(FormatPrefix(s.subnetIP), FormatIP(s.gwIP), s.vni)
  }

  function SubnetJSONs(subnets: seq<Subnet>): seq<SubnetJSON> {
    seq(|subnets|, i requires 0 <= i < |subnets| => SubnetToJSON(subnets[i]))
  }

  /** `json.Marshal` of a subnetJSON: the struct's field names are the keys. */
  function EncodeSubnet(sj: SubnetJSON): Json {
    JObject(map["SubnetIP" := JString(sj.subnetIP), "GwIP" := JString(sj.gwIP), "Vni" := JNumber(sj.vni)])
  }

  function EncodeSubnets(subnets: seq<Subnet>): seq<Json> {
    seq(|subnets|, i requires 0 <= i < |subnets| => EncodeSubnet(SubnetToJSON(subnets[i])))
  }

  /** The record `Value` writes: a map with six keys. */
  function Encode(r: NetRecord): Json {
    JObject(map[
      "secure" := JBool(r.secure),
      "subnets" := JArray(EncodeSubnets(r.subnets)),
      "interfaceName" := JString(r.interfaceName),
      "providerAddress" := JString(r.providerAddress),
      "hnsId" := JString(r.hnsId),
      "name" := JString(r.name)])
  }

  /** Decoding a string field of a struct from an object whose keys name fields up to case
      folding: no string under such a key keeps the default, a string replaces it, and any
      other non-null value there is a type error (None). */
  function StringField(f: map<string, Json>, name: string): Option<string> {
    if Misfit(f, name, Text) then None
    else
      match FieldValue(f, name, Text)
      case Absent => Some("")
      case Read(v) => Some(v.s)
      case Conflict => None
  }

  /** Decoding a uint32 field the same way: a number out of range is a type error. */
  function Uint32Field(f: map<string, Json>, name: string): Option<uint32> {
    if Misfit(f, name, Number(Two32)) then None
    else
      match FieldValue(f, name, Number(Two32))
      case Absent => Some(0)
      case Read(v) => Some(v.n)
      case Conflict => None
  }

  /** `json.Unmarshal` of one element of a `[]*subnetJSON`. A null element becomes a nil
      pointer, which the decoding loop would dereference. */
  function DecodeSubnetJSON(j: Json): Result<SubnetJSON> {
    match j
    case JNull => Err(NilSubnetRecord)
    case JObject(f) =>
      (match (StringField(f, "SubnetIP"), StringField(f, "GwIP"), Uint32Field(f, "Vni"))
       case (Some(ip), Some(gw), Some(vni)) => Ok(SubnetJSON(ip, gw, vni))
       case _ => Err(SubnetRecordMismatch))
    case _ => Err(SubnetRecordMismatch)
  }

  /** Decoding a JSON array into `[]*subnetJSON`, element by element. */
  function DecodeItems(items: seq<Json>): (r: Result<seq<SubnetJSON>>)
    ensures r.Ok? ==> |r.value| == |items|
  {
    if |items| == 0 then Ok([])
    else
      match DecodeSubnetJSON(items[0])
      case Err(e) => Err(e)
      case Ok(sj) =>
        match DecodeItems(items[1..])
        case Err(e) => Err(e)
        case Ok(rest) => Ok([sj] + rest)
  }

  /** Decoding the value under "subnets": null (or a missing key) is the empty list. */
  function DecodeSubnetList(j: Json): Result<seq<SubnetJSON>> {
    match j
    case JNull => Ok([])
    case JArray(items) => DecodeItems(items)
    case _ => Err(SubnetRecordMismatch)
  }

  /** The subnet has the same mask length and the same address as the prefix. */
  predicate SameNetwork(s: Subnet, p: Prefix) {
    s.subnetIP.Some? && s.subnetIP.value.ones == p.ones && s.subnetIP.value.ip == p.ip
  }

  /** getMatchingSubnet: the index of the first subnet with the same mask length and
      the same address; none for a nil prefix or when no subnet matches. A subnet with a
      nil prefix met before the match is the source's nil dereference, NilSubnetPrefix. */
  function MatchingSubnet(subnets: seq<Subnet>, p: Option<Prefix>): (r: Result<Option<nat>>)
    ensures p.None? ==> r == Ok(None)
    ensures r.Ok? && r.value.Some? ==>
      && r.value.value < |subnets| && SameNetwork(subnets[r.value.value], p.value)
      && forall j :: 0 <= j < r.value.value ==> subnets[j].subnetIP.Some? && !SameNetwork(subnets[j], p.value)
    ensures r == Ok(None) && p.Some? ==>
      forall j :: 0 <= j < |subnets| ==> subnets[j].subnetIP.Some? && !SameNetwork(subnets[j], p.value)
    ensures r.Err? ==>
      && r.error == NilSubnetPrefix && p.Some?
      && exists i :: 0 <= i < |subnets| && subnets[i].subnetIP.None? &&
           forall j :: 0 <= j < i ==> subnets[j].subnetIP.Some? && !SameNetwork(subnets[j], p.value)
  {
    if p.None? || |subnets| == 0 then Ok(None)
    else if subnets[0].subnetIP.None? then Err(NilSubnetPrefix)
    else if SameNetwork(subnets[0], p.value) then Ok(Some(0))
    else
      match MatchingSubnet(subnets[1..], p)
      case Err(e) =>
        ghost var i :| 0 <= i < |subnets[1..]| && subnets[1..][i].subnetIP.None? &&
          forall j :: 0 <= j < i ==> subnets[1..][j].subnetIP.Some? && !SameNetwork(subnets[1..][j], p.value);
        assert subnets[i + 1].subnetIP.None?;
        Err(e)
      case Ok(None) => Ok(None)
      case Ok(Some(k)) => Ok(Some(k + 1))
  }

  /** One pass of SetValue's loop: append on a new network, otherwise overwrite the VNI of
      the matching subnet, if any. */
  function ApplySubnet(subnets: seq<Subnet>, sj: SubnetJSON, newNet: bool): Result<seq<Subnet>> {
    var p := ParseCIDR(sj.subnetIP);
    if newNet then Ok(subnets + [Subnet(sj.vni, p, ParseIP(sj.gwIP))])
    else
      match MatchingSubnet(subnets, p)
      case Err(e) => Err(e)
      case Ok(None) => Ok(subnets)
      case Ok(Some(k)) => Ok(subnets[k := subnets[k].(vni := sj.vni)])
  }

  /** SetValue's loop over the decoded subnet records, in order. The first record whose
      match meets a nil prefix stops the loop, with the records before it applied. */
  function ApplySubnets(subnets: seq<Subnet>, list: seq<SubnetJSON>, newNet: bool): (seq<Subnet>, Option<Error>) {
    if |list| == 0 then (subnets, None)
    else
      var (mid, e) := ApplySubnets(subnets, list[..|list| - 1], newNet);
      if e.Some? then (mid, e)
      else
        match ApplySubnet(mid, list[|list| - 1], newNet)
        case Err(e') => (mid, Some(e'))
        case Ok(out) => (out, None)
  }

  /** Once a prefix of the records stops the loop, the later records change nothing. */
  lemma {:induction false} ApplySubnetsStops(subnets: seq<Subnet>, list: seq<SubnetJSON>, n: nat, newNet: bool)
    requires n <= |list| && ApplySubnets(subnets, list[..n], newNet).1.Some?
    ensures ApplySubnets(subnets, list, newNet) == ApplySubnets(subnets, list[..n], newNet)
    decreases |list|
  {
    if n < |list| {
      var front := list[..|list| - 1];
      assert front[..n] == list[..n];
      ApplySubnetsStops(subnets, front, n, newNet);
    } else {
      assert list[..n] == list;
    }
  }

  /** The scalar fields of the current map shape, in the order SetValue reads them. A
      field of the wrong type stops decoding where Go's type assertion would fail, with
      the fields before it already written. */
  function ApplyFields(r: NetRecord, m: map<string, Json>): (res: (NetRecord, Option<Error>))
    ensures res.0 == r.(secure := res.0.secure, providerAddress := res.0.providerAddress,
                        interfaceName := res.0.interfaceName, hnsId := res.0.hnsId, name := res.0.name)
  {
    if "secure" in m && !m["secure"].JBool? then (r, Some(FieldTypeMismatch("secure")))
    else
      var r1 := if "secure" in m then r.(secure := m["secure"].b) else r;
      if "providerAddress" in m && !m["providerAddress"].JString? then (r1, Some(FieldTypeMismatch("providerAddress")))
      else
        var r2 := if "providerAddress" in m then r1.(providerAddress := m["providerAddress"].s) else r1;
        if "interfaceName" in m && !m["interfaceName"].JString? then (r2, Some(FieldTypeMismatch("interfaceName")))
        else
          var r3 := if "interfaceName" in m then r2.(interfaceName := m["interfaceName"].s) else r2;
          if "hnsId" in m && !m["hnsId"].JString? then (r3, Some(FieldTypeMismatch("hnsId")))
          else
            var r4 := if "hnsId" in m then r3.(hnsId := m["hnsId"].s) else r3;
            if "name" in m && !m["name"].JString? then (r4, Some(FieldTypeMismatch("name")))
            else (if "name" in m then r4.(name := m["name"].s) else r4, None)
  }

  /** The decoded record in the current map shape: the scalar fields, then the subnet
      records under "subnets" (a missing key reads as null). */
  function ApplyMap(r: NetRecord, m: map<string, Json>, newNet: bool): (NetRecord, Option<Error>) {
    var (r5, e) := ApplyFields(r, m);
    if e.Some? then (r5, e)
    else
      match DecodeSubnetList(if "subnets" in m then m["subnets"] else JNull)
      case Err(e) => (r5, Some(e))
      case Ok(list) =>
        var (out, e') := ApplySubnets(r5.subnets, list, newNet);
        (r5.(subnets := out), e')
  }

  /** SetValue: a map (or null) is the current shape, an array the legacy shape, anything
      else fails. Subnets are appended only when the network had none. */
  function SetValueSpec(r: NetRecord, doc: Document): (NetRecord, Option<Error>) {
    var newNet := |r.subnets| == 0;
    match doc
    case Malformed => (r, Some(UndecodableRecord))
    case Parsed(j) =>
      if j.JObject? || j.JNull? then
        ApplyMap(r, if j.JObject? then j.fields else map[], newNet)
      else if j.JArray? then
        match DecodeItems(j.items)
        case Err(e) => (r, Some(e))
        case Ok(list) =>
          var (out, e) := ApplySubnets(r.subnets, list, newNet);
          (r.(subnets := out), e)
      else (r, Some(UndecodableRecord))
  }

  /** Decoding a marshalled subnet record gives the record back. */
  lemma DecodeEncodedSubnet(sj: SubnetJSON)
    ensures DecodeSubnetJSON(EncodeSubnet(sj)) == Ok(sj)
  {
    var f := EncodeSubnet(sj).fields;
    assert f.Keys == {"SubnetIP", "GwIP", "Vni"};
    FieldValueOnly(f, "SubnetIP", Text, "SubnetIP");
    FieldValueOnly(f, "GwIP", Text, "GwIP");
    FieldValueOnly(f, "Vni", Number(Two32), "Vni");
  }

  /** Keys are matched to subnetJSON's fields without regard to case: a record written by
      hand with lower-case keys decodes like the one Value writes. */
  lemma DecodeLowerCaseKeys(subnetIP: string, vni: uint32)
    ensures DecodeSubnetJSON(JObject(map["subnetip" := JString(subnetIP), "vni" := JNumber(vni)])) ==
      Ok(SubnetJSON(subnetIP, "", vni))
  {
    var f := map["subnetip" := JString(subnetIP), "vni" := JNumber(vni)];
    assert f.Keys == {"subnetip", "vni"};
    assert FoldEq("subnetip", "SubnetIP") by {
      forall i | 0 <= i < 8 ensures FoldChar("subnetip"[i]) == FoldChar("SubnetIP"[i]) {
      }
    }
    assert FoldEq("vni", "Vni") by {
      forall i | 0 <= i < 3 ensures FoldChar("vni"[i]) == FoldChar("Vni"[i]) {
      }
    }
    FieldValueOnly(f, "SubnetIP", Text, "subnetip");
    FieldValueOnly(f, "Vni", Number(Two32), "vni");
    assert !Misfit(f, "GwIP", Text) && FieldValue(f, "GwIP", Text) == Absent;
  }

  lemma DecodeEncodedItems(subnets: seq<Subnet>)
    ensures DecodeItems(EncodeSubnets(subnets)) == Ok(SubnetJSONs(subnets))
  {
    var items := EncodeSubnets(subnets);
    var out := SubnetJSONs(subnets);
    forall i | 0 <= i < |items|
      ensures DecodeSubnetJSON(items[i]) == Ok(out[i])
    {
      DecodeEncodedSubnet(out[i]);
    }
    DecodeEachItem(items, out);
  }

  /** An array whose elements each decode decodes to the list of their values. */
  lemma {:induction false} DecodeEachItem(items: seq<Json>, out: seq<SubnetJSON>)
    requires |items| == |out|
    requires forall i :: 0 <= i < |items| ==> DecodeSubnetJSON(items[i]) == Ok(out[i])
    ensures DecodeItems(items) == Ok(out)
  {
    if |items| > 0 {
      DecodeEachItem(items[1..], out[1..]);
      DecodeItemsFirst(items, out[0], out[1..]);
      assert [out[0]] + out[1..] == out;
    }
  }

  /** Decoding an array is decoding its first element and then the rest. */
  lemma DecodeItemsFirst(items: seq<Json>, sj: SubnetJSON, rest: seq<SubnetJSON>)
    requires |items| > 0 && DecodeSubnetJSON(items[0]) == Ok(sj) && DecodeItems(items[1..]) == Ok(rest)
    ensures DecodeItems(items) == Ok([sj] + rest)
  {
  }

  lemma {:induction false} RebuildSubnets(subnets: seq<Subnet>)
    ensures ApplySubnets([], SubnetJSONs(subnets), true) == (subnets, None)
  {
    if |subnets| > 0 {
      var last := |subnets| - 1;
      var front := subnets[..last];
      var list := SubnetJSONs(subnets);
      RebuildSubnets(front);
      SubnetJSONsLast(subnets);
      assert list[..|list| - 1] == SubnetJSONs(front) && list[|list| - 1] == SubnetToJSON(subnets[last]);
      RebuildOne(front, subnets[last]);
      LastSplit(subnets);
    }
  }

  /** A non-empty list is its front followed by its last element. */
  lemma LastSplit<T>(xs: seq<T>)
    requires |xs| > 0
    ensures xs[..|xs| - 1] + [xs[|xs| - 1]] == xs
  {
  }

  /** The stored forms of a list are those of its front followed by that of its last. */
  lemma SubnetJSONsLast(subnets: seq<Subnet>)
    requires |subnets| > 0
    ensures var last := |subnets| - 1;
      SubnetJSONs(subnets)[..last] == SubnetJSONs(subnets[..last])
      && SubnetJSONs(subnets)[last] == SubnetToJSON(subnets[last])
  {
  }

  /** On a new network one stored subnet appends the subnet it was written from. */
  lemma RebuildOne(front: seq<Subnet>, s: Subnet)
    ensures ApplySubnet(front, SubnetToJSON(s), true) == Ok(front + [s])
  {
    ParseFormatPrefix(s.subnetIP);
    ParseFormatIP(s.gwIP);
  }

  /** Round trip of the current shape: decoding what Value wrote into a network without
      subnets reproduces the subnets (prefix, gateway and VNI, in order) and the secure,
      providerAddress, interfaceName, hnsId and name fields. */
  lemma EncodeDecodeRoundTrip(r: NetRecord, target: NetRecord)
    requires target.subnets == []
    ensures SetValueSpec(target, Parsed(Encode(r))) ==
      (target.(secure := r.secure, providerAddress := r.providerAddress, interfaceName := r.interfaceName,
               hnsId := r.hnsId, name := r.name, subnets := r.subnets), None)
  {
    var m := Encode(r).fields;
    var fields := target.(secure := r.secure, providerAddress := r.providerAddress, interfaceName := r.interfaceName,
                          hnsId := r.hnsId, name := r.name);
    EncodedFields(r, target);
    assert m["subnets"] == JArray(EncodeSubnets(r.subnets));
    DecodeEncodedItems(r.subnets);
    RebuildSubnets(r.subnets);
    assert ApplyMap(target, m, true) == (fields.(subnets := r.subnets), None);
  }

  /** The scalar fields of a written record decode to the written values. */
  lemma EncodedFields(r: NetRecord, target: NetRecord)
    ensures ApplyFields(target, Encode(r).fields) ==
      (target.(secure := r.secure, providerAddress := r.providerAddress, interfaceName := r.interfaceName,
               hnsId := r.hnsId, name := r.name), None)
  {
    var m := Encode(r).fields;
    assert m["secure"] == JBool(r.secure);
    assert m["providerAddress"] == JString(r.providerAddress);
    assert m["interfaceName"] == JString(r.interfaceName);
    assert m["hnsId"] == JString(r.hnsId);
    assert m["name"] == JString(r.name);
  }

  /** Round trip of the legacy shape: a bare array of subnet records decodes into a
      network without subnets as those subnets, and touches no other field. */
  lemma LegacyRoundTrip(target: NetRecord, subnets: seq<Subnet>)
    requires target.subnets == []
    ensures SetValueSpec(target, Parsed(JArray(EncodeSubnets(subnets)))) == (target.(subnets := subnets), None)
  {
    DecodeEncodedItems(subnets);
    RebuildSubnets(subnets);
  }

  /** The match ignores VNIs, so overwriting one does not move later matches. */
  lemma {:induction false} MatchingIgnoresVni(subnets: seq<Subnet>, k: nat, vni: uint32, p: Option<Prefix>)
    requires k < |subnets|
    ensures MatchingSubnet(subnets[k := subnets[k].(vni := vni)], p) == MatchingSubnet(subnets, p)
  {
    var updated := subnets[k := subnets[k].(vni := vni)];
    if p.Some? && |subnets| > 0 && subnets[0].subnetIP.Some? && !SameNetwork(subnets[0], p.value) {
      if k == 0 {
        assert updated[1..] == subnets[1..];
      } else {
        assert updated[1..] == subnets[1..][k - 1 := subnets[k].(vni := vni)];
        MatchingIgnoresVni(subnets[1..], k - 1, vni, p);
      }
    }
  }

  /** `out` keeps the subnets' number, prefixes and gateways, and a VNI differs only where
      getMatchingSubnet finds the subnet for one of the records, whose VNI it then holds. */
  ghost predicate InPlace(subnets: seq<Subnet>, list: seq<SubnetJSON>, out: seq<Subnet>) {
    && |out| == |subnets|
    && (forall i :: 0 <= i < |out| ==> out[i].subnetIP == subnets[i].subnetIP && out[i].gwIP == subnets[i].gwIP)
    && (forall i :: 0 <= i < |out| && out[i].vni != subnets[i].vni ==>
          exists k :: 0 <= k < |list| && MatchingSubnet(subnets, ParseCIDR(list[k].subnetIP)) == Ok(Some(i)) && out[i].vni == list[k].vni)
  }

  /** On a network that already has subnets, SetValue's loop never adds or removes a
      subnet and never changes a prefix or gateway; a VNI changes only on a subnet that
      getMatchingSubnet finds for one of the records, and then takes that record's VNI. */
  lemma {:induction false} ApplySubnetsInPlace(subnets: seq<Subnet>, list: seq<SubnetJSON>)
    ensures InPlace(subnets, list, ApplySubnets(subnets, list, false).0)
  {
    if |list| > 0 {
      var front := list[..|list| - 1];
      var sj := list[|list| - 1];
      ApplySubnetsInPlace(subnets, front);
      var (mid, e) := ApplySubnets(subnets, front, false);
      assert list == front + [sj];
      if e.None? && ApplySubnet(mid, sj, false).Ok? {
        InPlaceStep(subnets, front, sj, mid);
      } else {
        InPlaceExtend(subnets, front, sj, mid);
      }
    }
  }

  /** Only a stored subnet without a prefix can stop SetValue's loop: over subnets that all
      carry one, every record is applied. */
  lemma {:induction false} PrefixedNeverStops(subnets: seq<Subnet>, list: seq<SubnetJSON>, newNet: bool)
    requires forall i :: 0 <= i < |subnets| ==> subnets[i].subnetIP.Some?
    ensures ApplySubnets(subnets, list, newNet).1.None?
  {
    if |list| > 0 {
      var front := list[..|list| - 1];
      PrefixedNeverStops(subnets, front, newNet);
      if !newNet {
        ApplySubnetsInPlace(subnets, front);
        var mid := ApplySubnets(subnets, front, false).0;
        assert forall i :: 0 <= i < |mid| ==> mid[i].subnetIP.Some?;
      }
    }
  }

  /** A record whose update goes through extends what the loop has kept in place. */
  lemma InPlaceStep(subnets: seq<Subnet>, front: seq<SubnetJSON>, sj: SubnetJSON, mid: seq<Subnet>)
    requires InPlace(subnets, front, mid) && ApplySubnet(mid, sj, false).Ok?
    ensures InPlace(subnets, front + [sj], ApplySubnet(mid, sj, false).value)
  {
    var p := ParseCIDR(sj.subnetIP);
    var list := front + [sj];
    var out := ApplySubnet(mid, sj, false).value;
    assert MatchingSubnet(mid, p) == MatchingSubnet(subnets, p) by {
      MatchingSameNetworks(mid, subnets, p);
    }
    forall i | 0 <= i < |out| && out[i].vni != subnets[i].vni
      ensures exists k :: 0 <= k < |list| && MatchingSubnet(subnets, ParseCIDR(list[k].subnetIP)) == Ok(Some(i)) && out[i].vni == list[k].vni
    {
      if MatchingSubnet(mid, p) == Ok(Some(i)) {
        assert list[|front|] == sj;
      } else {
        assert out[i] == mid[i];
        var k :| 0 <= k < |front| && MatchingSubnet(subnets, ParseCIDR(front[k].subnetIP)) == Ok(Some(i)) && mid[i].vni == front[k].vni;
        assert list[k] == front[k];
      }
    }
  }

  /** A record more, with no update, keeps what the loop has kept in place. */
  lemma InPlaceExtend(subnets: seq<Subnet>, front: seq<SubnetJSON>, sj: SubnetJSON, mid: seq<Subnet>)
    requires InPlace(subnets, front, mid)
    ensures InPlace(subnets, front + [sj], mid)
  {
    var list := front + [sj];
    forall i | 0 <= i < |mid| && mid[i].vni != subnets[i].vni
      ensures exists k :: 0 <= k < |list| && MatchingSubnet(subnets, ParseCIDR(list[k].subnetIP)) == Ok(Some(i)) && mid[i].vni == list[k].vni
    {
      var k :| 0 <= k < |front| && MatchingSubnet(subnets, ParseCIDR(front[k].subnetIP)) == Ok(Some(i)) && mid[i].vni == front[k].vni;
      assert list[k] == front[k];
    }
  }

  /** Two subnet lists with the same prefixes in the same places match alike. */
  lemma {:induction false} MatchingSameNetworks(a: seq<Subnet>, b: seq<Subnet>, p: Option<Prefix>)
    requires |a| == |b|
    requires forall i :: 0 <= i < |a| ==> a[i].subnetIP == b[i].subnetIP
    ensures MatchingSubnet(a, p) == MatchingSubnet(b, p)
  {
    if p.Some? && |a| > 0 {
      MatchingSameNetworks(a[1..], b[1..], p);
    }
  }

  /** SetValue on a network that already has subnets never changes how many there are, nor
      any prefix or gateway. */
  lemma SetValueKeepsExistingSubnets(r: NetRecord, doc: Document)
    requires r.subnets != []
    ensures var out := SetValueSpec(r, doc).0.subnets;
      && |out| == |r.subnets|
      && forall i :: 0 <= i < |out| ==> out[i].subnetIP == r.subnets[i].subnetIP && out[i].gwIP == r.subnets[i].gwIP
  {
    if doc.Parsed? {
      var j := doc.json;
      if j.JObject? || j.JNull? {
        var m := if j.JObject? then j.fields else map[];
        var (r5, e) := ApplyFields(r, m);
        assert r5.subnets == r.subnets;
        var list := DecodeSubnetList(if "subnets" in m then m["subnets"] else JNull);
        if e.None? && list.Ok? {
          ApplySubnetsInPlace(r.subnets, list.value);
        }
      } else if j.JArray? {
        var list := DecodeItems(j.items);
        if list.Ok? {
          ApplySubnetsInPlace(r.subnets, list.value);
        }
      }
    }
  }

  /** The store key of a network: the key prefix followed by the network id. */
  function Key(id: string): (k: seq<string>)
    ensures |k| == |KeyPrefix()| + 1 && k[..|KeyPrefix()|] == KeyPrefix() && k[|KeyPrefix()|] == id
  {
    ["overlay", "network", id]
  }

  function KeyPrefix(): seq<string> {
    ["overlay", "network"]
  }

  /** What the store holds under a key: the record and its version index. */
  datatype KVPair = KVPair(value: Document, lastIndex: nat)

  /** The global store, as a partial map from keys to records. */
  datatype Store = Store(records: map<seq<string>, KVPair>)
}
