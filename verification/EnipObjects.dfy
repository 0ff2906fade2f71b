/** The CIP message router and the two objects behind it: Identity (class 1) and Assembly (class 4). */
module EnipObjects {
  import opened Wrappers
  import opened Bytes
  import opened EnipPath

  const GET_ATTRIBUTES_ALL: Byte := 0x01
  const GET_ATTRIBUTE_SINGLE: Byte := 0x0E
  const SET_ATTRIBUTE_SINGLE: Byte := 0x10

  const SUCCESS: Byte := 0x00
  const PATH_SEGMENT_ERROR: Byte := 0x04
  const PATH_DESTINATION_UNKNOWN: Byte := 0x05
  const SERVICE_NOT_SUPPORTED: Byte := 0x08
  const ATTRIBUTE_NOT_SETTABLE: Byte := 0x0E
  const NOT_ENOUGH_DATA: Byte := 0x13
  const ATTRIBUTE_NOT_SUPPORTED: Byte := 0x14

  const IDENTITY_CLASS := 0x01
  const ASSEMBLY_CLASS := 0x04
  const ASSEMBLY_DATA := 3

  datatype Identity = Identity(
    vendorId: U16, deviceType: U16, productCode: U16, revisionMajor: Byte, revisionMinor: Byte,
    status: U16, serialNumber: U32, productName: seq<Byte>, state: Byte)

  /** The assembly instances and their bytes. */
  type Store = map<nat, seq<Byte>>

  // ---------------------------------------------------------------- attributes

  /** The product name is sent behind a one-byte length; a longer one makes the packing raise. */
  predicate NameFits(id: Identity) {
    |id.productName| < 0x100
  }

  /** `None` is the KeyError of an attribute the Identity object does not have. */
  function PackIdentityAttribute(id: Identity, attribute: nat): Option<seq<Byte>>
    requires NameFits(id)
  {
    match attribute
    case 1 => Some(PackU16Le(id.vendorId))
    case 2 => Some(PackU16Le(id.deviceType))
    case 3 => Some(PackU16Le(id.productCode))
    case 4 => Some([id.revisionMajor, id.revisionMinor])
    case 5 => Some(PackU16Le(id.status))
    case 6 => Some(PackU32Le(id.serialNumber))
    case 7 => Some([|id.productName|] + id.productName)
    case 8 => Some([id.state])
    case _ => None
  }

  /** Attributes 1 to 7, joined. */
  function PackIdentityAll(id: Identity): seq<Byte>
    requires NameFits(id)
  {
    PackIdentityAttribute(id, 1).value + PackIdentityAttribute(id, 2).value + PackIdentityAttribute(id, 3).value
    + PackIdentityAttribute(id, 4).value + PackIdentityAttribute(id, 5).value + PackIdentityAttribute(id, 6).value
    + PackIdentityAttribute(id, 7).value
  }

  /** A client finds every field of the identity at its place in the joined attributes. */
  lemma ClientReadsIdentity(id: Identity)
    requires NameFits(id)
    ensures var all := PackIdentityAll(id);
            && |all| == 15 + |id.productName|
            && UnpackU16Le(all, 0) == id.vendorId && UnpackU16Le(all, 2) == id.deviceType
            && UnpackU16Le(all, 4) == id.productCode && all[6] == id.revisionMajor && all[7] == id.revisionMinor
            && UnpackU16Le(all, 8) == id.status && UnpackU32Le(all, 10) == id.serialNumber
            && all[14] == |id.productName| && all[15..] == id.productName
  {
  }

  /** The data and status an attribute service returns, or the exception it lets through. */
  datatype Answer = Raised | Answer(data: seq<Byte>, status: Byte)

  function GetAttribute(id: Identity, store: Store, classCode: nat, instance: nat, attribute: nat): Answer {
    if classCode == IDENTITY_CLASS && instance == 1 then
      if !NameFits(id) then Raised
      else match PackIdentityAttribute(id, attribute)
        case Some(data) => Answer(data, SUCCESS)
        case None => Answer([], ATTRIBUTE_NOT_SUPPORTED)
    else if classCode == ASSEMBLY_CLASS then
      if attribute != ASSEMBLY_DATA then Answer([], ATTRIBUTE_NOT_SUPPORTED)
      else if instance !in store then Answer([], PATH_DESTINATION_UNKNOWN)
      else Answer(store[instance], SUCCESS)
    else Answer([], PATH_DESTINATION_UNKNOWN)
  }

  function GetAttributesAll(id: Identity, store: Store, classCode: nat, instance: nat): Answer {
    if classCode == IDENTITY_CLASS && instance == 1 then
      if !NameFits(id) then Raised else Answer(PackIdentityAll(id), SUCCESS)
    else if classCode == ASSEMBLY_CLASS then GetAttribute(id, store, classCode, instance, ASSEMBLY_DATA)
    else Answer([], PATH_DESTINATION_UNKNOWN)
  }

  function SetAttributeStatus(store: Store, classCode: nat, instance: nat, attribute: nat): Byte {
    if classCode == ASSEMBLY_CLASS then
      if attribute != ASSEMBLY_DATA then ATTRIBUTE_NOT_SUPPORTED
      else if instance !in store then PATH_DESTINATION_UNKNOWN
      else SUCCESS
    else if classCode == IDENTITY_CLASS && instance == 1 then ATTRIBUTE_NOT_SETTABLE
    else PATH_DESTINATION_UNKNOWN
  }

  function SetAttribute(store: Store, classCode: nat, instance: nat, attribute: nat, value: seq<Byte>): Store {
    if SetAttributeStatus(store, classCode, instance, attribute) == SUCCESS then store[instance := value] else store
  }

  // ---------------------------------------------------------------- requests

  /** A CIP request taken apart; the first three cases are answered without reaching an object. */
  datatype Request =
    | NoHeader
    | ShortPath(service: Byte)
    | BadPath(service: Byte)
    | Call(service: Byte, target: Target, data: seq<Byte>)

  function DecodeRequest(request: seq<Byte>): Request {
    if |request| < 2 then NoHeader
    else
      var service, pathEnd := request[0], 2 + 2 * request[1] as int;
      if |request| < pathEnd then ShortPath(service)
      else match ParsePath(request[2..pathEnd])
        case None => BadPath(service)
        case Some(target) => Call(service, target, request[pathEnd..])
  }

  function CipResponse(service: Byte, status: Byte, data: seq<Byte>): seq<Byte> {
    [if service < 0x80 then service + 0x80 else service, 0x00, status, 0x00] + data
  }

  /** `Raising` is an exception that leaves the frame handler. */
  datatype CipResult = Raising | Responding(response: seq<Byte>, store: Store)

  function Respond(service: Byte, answer: Answer, store: Store): CipResult {
    match answer
    case Raised => Raising
    case Answer(data, status) => Responding(CipResponse(service, status, data), store)
  }

  function HandleCip(id: Identity, store: Store, request: seq<Byte>): CipResult {
    match DecodeRequest(request)
    case NoHeader => Responding(CipResponse(0, NOT_ENOUGH_DATA, []), store)
    case ShortPath(service) => Responding(CipResponse(service, NOT_ENOUGH_DATA, []), store)
    case BadPath(service) => Responding(CipResponse(service, PATH_SEGMENT_ERROR, []), store)
    case Call(service, Target(c, i, attribute), data) =>
      if service == GET_ATTRIBUTES_ALL then Respond(service, GetAttributesAll(id, store, c, i), store)
      else if service == GET_ATTRIBUTE_SINGLE then
        if attribute.None? then Responding(CipResponse(service, PATH_DESTINATION_UNKNOWN, []), store)
        else Respond(service, GetAttribute(id, store, c, i, attribute.value), store)
      else if service == SET_ATTRIBUTE_SINGLE then
        if attribute.None? then Responding(CipResponse(service, PATH_DESTINATION_UNKNOWN, []), store)
        else Responding(CipResponse(service, SetAttributeStatus(store, c, i, attribute.value), []),
                        SetAttribute(store, c, i, attribute.value, data))
      else Responding(CipResponse(service, SERVICE_NOT_SUPPORTED, []), store)
  }

  // ---------------------------------------------------------------- reads and writes of assemblies

  datatype Access = Access(instance: nat, data: seq<Byte>)

  /** The instance and bytes of a request that asks to write an assembly. */
  function AsWrite(request: seq<Byte>): Option<Access> {
    match DecodeRequest(request)
    case Call(service, Target(c, i, attribute), data) =>
      if service == SET_ATTRIBUTE_SINGLE && c == ASSEMBLY_CLASS && attribute == Some(ASSEMBLY_DATA)
      then Some(Access(i, data)) else None
    case _ => None
  }

  /** The instance of a request that asks to read an assembly, by either of the two services. */
  function AsRead(request: seq<Byte>): Option<nat> {
    match DecodeRequest(request)
    case Call(service, Target(c, i, attribute), _) =>
      if && c == ASSEMBLY_CLASS
         && (service == GET_ATTRIBUTES_ALL || (service == GET_ATTRIBUTE_SINGLE && attribute == Some(ASSEMBLY_DATA)))
      then Some(i) else None
    case _ => None
  }

  /** A request as a client writes it. */
  function EncodeRequest(service: Byte, path: seq<Segment>, data: seq<Byte>): seq<Byte>
    requires PathFits(path) && |EncodePath(path)| % 2 == 0 && |EncodePath(path)| < 0x200
  {
    [service, |EncodePath(path)| / 2] + EncodePath(path) + data
  }

  lemma DecodeEncoded(service: Byte, path: seq<Segment>, data: seq<Byte>)
    requires PathFits(path) && |EncodePath(path)| % 2 == 0 && |EncodePath(path)| < 0x200
    requires Meaning(path).Some?
    ensures DecodeRequest(EncodeRequest(service, path, data)) == Call(service, Meaning(path).value, data)
  {
    var request := EncodeRequest(service, path, data);
    ParseEncodedPath(path);
    assert request[2..2 + |EncodePath(path)|] == EncodePath(path);
    assert request[2 + |EncodePath(path)|..] == data;
  }

  /**
   * A write of a known assembly succeeds and replaces that one entry; every other request, failed
   * writes included, leaves the store alone. No request creates or removes an instance.
   */
  lemma StoreEffect(id: Identity, store: Store, request: seq<Byte>)
    requires HandleCip(id, store, request).Responding?
    ensures var after := HandleCip(id, store, request).store;
            && after.Keys == store.Keys
            && match AsWrite(request)
               case Some(w) =>
                 if w.instance in store
                 then after == store[w.instance := w.data] && HandleCip(id, store, request).response == [0x90, 0, 0, 0]
                 else after == store && HandleCip(id, store, request).response == [0x90, 0, 5, 0]
               case None => after == store
  {
  }

  /** A read of an assembly answers exactly the stored bytes, or that the destination is unknown. */
  lemma ReadAnswers(id: Identity, store: Store, request: seq<Byte>)
    requires AsRead(request).Some?
    ensures |request| >= 2 && request[0] in {0x01, 0x0E}
    ensures var i := AsRead(request).value;
            HandleCip(id, store, request)
            == Responding(if i in store then [0x80 + request[0], 0, 0, 0] + store[i] else [0x80 + request[0], 0, 5, 0],
                          store)
  {
  }

  /** The joined attributes of the Identity object, from the fifth octet of the answer on. */
  lemma IdentityAllAnswers(id: Identity, store: Store, request: seq<Byte>, a: Option<U32>, data: seq<Byte>)
    requires NameFits(id) && DecodeRequest(request) == Call(0x01, Target(1, 1, a), data)
    ensures HandleCip(id, store, request).Responding?
    ensures var response := HandleCip(id, store, request).response;
            && |response| == 19 + |id.productName| && response[..4] == [0x81, 0, 0, 0]
            && UnpackU16Le(response, 4) == id.vendorId && UnpackU16Le(response, 6) == id.deviceType
            && UnpackU16Le(response, 8) == id.productCode
            && response[10] == id.revisionMajor && response[11] == id.revisionMinor
            && UnpackU16Le(response, 12) == id.status && UnpackU32Le(response, 14) == id.serialNumber
            && response[18] == |id.productName| && response[19..] == id.productName
  {
    hide PackIdentityAll;
    ClientReadsIdentity(id);
    assert HandleCip(id, store, request).response[4..] == PackIdentityAll(id);
  }

  /** One attribute of the Identity object, or its refusal. */
  lemma IdentityAttributeAnswers(id: Identity, store: Store, request: seq<Byte>, a: U32, data: seq<Byte>)
    requires NameFits(id) && DecodeRequest(request) == Call(0x0E, Target(1, 1, Some(a)), data)
    ensures HandleCip(id, store, request).Responding?
    ensures var response := HandleCip(id, store, request).response;
            && |response| >= 4 && response[..4] == [0x8E, 0, if 1 <= a <= 8 then 0x00 else 0x14, 0]
            && (a == 1 ==> |response| == 6 && UnpackU16Le(response, 4) == id.vendorId)
            && (a == 2 ==> |response| == 6 && UnpackU16Le(response, 4) == id.deviceType)
            && (a == 3 ==> |response| == 6 && UnpackU16Le(response, 4) == id.productCode)
            && (a == 4 ==> response[4..] == [id.revisionMajor, id.revisionMinor])
            && (a == 5 ==> |response| == 6 && UnpackU16Le(response, 4) == id.status)
            && (a == 6 ==> |response| == 8 && UnpackU32Le(response, 4) == id.serialNumber)
            && (a == 7 ==> response[4..] == [|id.productName|] + id.productName)
            && (a == 8 ==> response[4..] == [id.state])
            && (a < 1 || a > 8 ==> |response| == 4)
  {
  }

  /** The status of an attribute service on an object, in the numbers of the wire. */
  function ServiceStatus(store: Store, service: Byte, target: Target): Byte {
    if service !in {0x01, 0x0E, 0x10} then 0x08
    else if service != 0x01 && target.attribute.None? then 0x05
    else if target.classCode == 1 && target.instance == 1 then
      if service == 0x01 then 0x00
      else if service == 0x10 then 0x0E
      else if 1 <= target.attribute.value <= 8 then 0x00 else 0x14
    else if target.classCode == 4 then
      if service != 0x01 && target.attribute != Some(3) then 0x14
      else if target.instance in store then 0x00 else 0x05
    else 0x05
  }

  /** The status of a request's answer, told from the request. */
  function StatusOf(store: Store, request: seq<Byte>): Byte {
    if |request| < 2 || |request| < 2 + 2 * request[1] as int then 0x13
    else
      match ParsePath(request[2..2 + 2 * request[1] as int])
      case None => 0x04
      case Some(target) => ServiceStatus(store, request[0], target)
  }

  lemma ServiceAnswers(id: Identity, store: Store, service: Byte, target: Target)
    ensures var Target(c, i, a), status := target, ServiceStatus(store, service, target);
            && (service == 0x01 && GetAttributesAll(id, store, c, i).Answer? ==>
                  GetAttributesAll(id, store, c, i).status == status)
            && (service == 0x0E && a.Some? && GetAttribute(id, store, c, i, a.value).Answer? ==>
                  GetAttribute(id, store, c, i, a.value).status == status)
            && (service == 0x10 && a.Some? ==> SetAttributeStatus(store, c, i, a.value) == status)
  {
    hide PackIdentityAll;
  }

  /** Every answer starts with the request's service under the reply bit, and its status says why it was refused. */
  lemma StatusTells(id: Identity, store: Store, request: seq<Byte>)
    requires HandleCip(id, store, request).Responding?
    ensures var response, status := HandleCip(id, store, request).response, StatusOf(store, request);
            && |response| >= 4
            && response[0] == (if |request| < 2 then 0x80
                               else if request[0] < 0x80 then 0x80 + request[0] else request[0])
            && response[1] == 0 && response[2] == status && response[3] == 0
            && (status != 0 || request[0] == 0x10 ==> |response| == 4)
  {
    hide ParsePath, GetAttribute, GetAttributesAll, SetAttributeStatus, SetAttribute;
    match DecodeRequest(request) {
      case Call(service, Target(c, i, attribute), _) =>
        ServiceAnswers(id, store, service, Target(c, i, attribute));
        AttributeStatuses(id, store, c, i, attribute.Or(0));
      case _ =>
    }
  }

  /** The requests of a client for assembly `i`, octet by octet. */
  lemma AssemblyRequests(i: Byte, data: seq<Byte>)
    ensures AsRead([0x0E, 3, 0x20, 4, 0x24, i, 0x30, 3]) == Some(i)
    ensures AsRead([0x01, 2, 0x20, 4, 0x24, i]) == Some(i)
    ensures AsWrite([0x10, 3, 0x20, 4, 0x24, i, 0x30, 3] + data) == Some(Access(i, data))
  {
    hide ParsePath;
    BytePath(4, i, 3);
    var path: seq<Byte> := [0x20, 4, 0x24, i, 0x30, 3];
    var write := [0x10, 3] + path + data;
    assert write == [0x10, 3, 0x20, 4, 0x24, i, 0x30, 3] + data;
    assert write[2..8] == path && write[8..] == data;
    assert [0x0E, 3, 0x20, 4, 0x24, i, 0x30, 3][2..8] == path;
    assert [0x01, 2, 0x20, 4, 0x24, i][2..6] == [0x20, 4, 0x24, i];
  }

  /** The only exception comes from an Identity read when the product name does not fit. */
  lemma RaisesOnlyOnLongName(id: Identity, store: Store, request: seq<Byte>)
    ensures HandleCip(id, store, request).Raising?
            <==> && !NameFits(id)
                 && match DecodeRequest(request)
                    case Call(service, Target(c, i, attribute), _) =>
                      && c == IDENTITY_CLASS && i == 1
                      && (service == GET_ATTRIBUTES_ALL || (service == GET_ATTRIBUTE_SINGLE && attribute.Some?))
                    case _ => false
  {
  }

  /** The requests that succeed: reads of the identity, and reads and writes of existing assemblies. */
  predicate Succeeds(store: Store, request: seq<Byte>) {
    || (AsRead(request).Some? && AsRead(request).value in store)
    || (AsWrite(request).Some? && AsWrite(request).value.instance in store)
    || match DecodeRequest(request)
       case Call(service, Target(c, i, attribute), _) =>
         && c == IDENTITY_CLASS && i == 1
         && (service == GET_ATTRIBUTES_ALL
             || (service == GET_ATTRIBUTE_SINGLE && attribute.Some? && 1 <= attribute.value <= 8))
       case _ => false
  }

  /** What the three attribute services say about success, whatever the exception case. */
  lemma AttributeStatuses(id: Identity, store: Store, c: nat, i: nat, attribute: nat)
    ensures var one := GetAttribute(id, store, c, i, attribute);
            one.Answer? ==>
              && (one.status == SUCCESS
                  <==> (c == ASSEMBLY_CLASS && attribute == ASSEMBLY_DATA && i in store)
                       || (c == IDENTITY_CLASS && i == 1 && 1 <= attribute <= 8))
              && (one.status != SUCCESS ==> one.data == [])
    ensures var all := GetAttributesAll(id, store, c, i);
            all.Answer? ==>
              && (all.status == SUCCESS <==> (c == ASSEMBLY_CLASS && i in store) || (c == IDENTITY_CLASS && i == 1))
              && (all.status != SUCCESS ==> all.data == [])
    ensures SetAttributeStatus(store, c, i, attribute) == SUCCESS
            <==> c == ASSEMBLY_CLASS && attribute == ASSEMBLY_DATA && i in store
  {
  }

  /**
   * The status byte tells success. A request that fails is answered by a bare status and leaves the
   * store alone; every answer carries the request's service with the reply bit set.
   */
  lemma FailedRequestsChangeNothing(id: Identity, store: Store, request: seq<Byte>)
    requires HandleCip(id, store, request).Responding?
    ensures var Responding(response, after) := HandleCip(id, store, request);
            && |response| >= 4
            && (response[2] == SUCCESS <==> Succeeds(store, request))
            && (!Succeeds(store, request) ==> |response| == 4 && after == store)
            && response[0] % 0x80 == (if |request| < 2 then 0 else request[0] % 0x80) && response[0] >= 0x80
  {
    hide ParsePath, GetAttribute, GetAttributesAll, SetAttributeStatus;
    match DecodeRequest(request) {
      case Call(_, Target(c, i, attribute), _) => AttributeStatuses(id, store, c, i, attribute.Or(0));
      case _ =>
    }
  }
}
