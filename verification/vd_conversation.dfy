/**
 * The vehicle-discovery conversation: inbound identification responses are
 * decoded into a collection keyed by logical address, and a vehicle
 * identification request drains that collection into the caller's list.
 */
module VdConversation {
  import opened Bytes
  import opened Wrappers
  import opened VehicleInfo

  /** `vehicle_info_collection_`: a std::map from logical address to record. */
  type Collection = map<Uint16, VehicleAddrInfo>

  /** Every record sits under its own logical address. */
  predicate WellKeyed(collection: Collection)
  {
    forall a :: a in collection ==> collection[a].logicalAddress == a
  }

  /** A message the conversation can be handed: null, or a payload the decoder can read. */
  predicate Decodable(message: Option<VdMessage>)
  {
    message.Some? ==> |message.value.payload| >= ResponseLength
  }

  predicate AllDecodable(messages: seq<Option<VdMessage>>)
  {
    forall i :: 0 <= i < |messages| ==> Decodable(messages[i])
  }

  // ---------------------------------------------------------------------------
  // HandleMessage

  /**
   * `HandleMessage`: a null message is ignored; otherwise the payload is
   * decoded and `emplace`d, which leaves an existing entry for the same
   * logical address in place.
   */
  function HandleMessage(collection: Collection, message: Option<VdMessage>): (c: Collection)
    requires Decodable(message)
    ensures message.None? ==> c == collection
    ensures message.Some? ==>
              var (key, record) := DeserializeVehicleInfoResponse(message.value);
              && c.Keys == collection.Keys + {key}
              && c[key] == (if key in collection then collection[key] else record)
    ensures forall a :: a in collection ==> c[a] == collection[a]
  {
    match message
    case None => collection
    case Some(m) =>
      var (key, record) := DeserializeVehicleInfoResponse(m);
      if key in collection then collection else collection[key := record]
  }

  /** Handling keeps every record under its own logical address. */
  lemma HandleMessageWellKeyed(collection: Collection, message: Option<VdMessage>)
    requires Decodable(message) && WellKeyed(collection)
    ensures WellKeyed(HandleMessage(collection, message))
  {
  }

  /** Handling the same message twice is the same as handling it once. */
  lemma HandleMessageIdempotent(collection: Collection, message: Option<VdMessage>)
    requires Decodable(message)
    ensures HandleMessage(HandleMessage(collection, message), message) == HandleMessage(collection, message)
  {
  }

  /** The messages of a sequence handled in arrival order. */
  function HandleMessages(collection: Collection, messages: seq<Option<VdMessage>>): (c: Collection)
    requires AllDecodable(messages)
    decreases |messages|
  {
    if messages == [] then collection
    else HandleMessages(HandleMessage(collection, messages[0]), messages[1..])
  }

  /** The logical address a non-null decodable message is stored under. */
  function ResponseKey(message: Option<VdMessage>): (key: Uint16)
    requires message.Some? && Decodable(message)
  {
    CombineLogicalAddress(message.value.payload[LogicalAddressHigh], message.value.payload[LogicalAddressLow])
  }

  /** The earliest non-null message in the sequence whose logical address is `key`. */
  function FirstResponse(messages: seq<Option<VdMessage>>, key: Uint16): (first: Option<VdMessage>)
    requires AllDecodable(messages)
    ensures first.Some? ==> Decodable(first) && ResponseKey(first) == key
    decreases |messages|
  {
    if messages == [] then None
    else if messages[0].Some? && ResponseKey(messages[0]) == key then messages[0]
    else FirstResponse(messages[1..], key)
  }

  /**
   * After a series of responses, each logical address holds the record it
   * already had, or else the record of the FIRST response that carried it;
   * no other address appears.
   */
  lemma {:induction false} FirstResponseWins(collection: Collection, messages: seq<Option<VdMessage>>, key: Uint16)
    requires AllDecodable(messages)
    ensures var c := HandleMessages(collection, messages);
            && (key in c <==> key in collection || FirstResponse(messages, key).Some?)
            && (key in c ==> c[key] == if key in collection then collection[key]
                                        else DeserializeVehicleInfoResponse(FirstResponse(messages, key).value).1)
    decreases |messages|
  {
    if messages != [] {
      FirstResponseWins(HandleMessage(collection, messages[0]), messages[1..], key);
    }
  }

  // ---------------------------------------------------------------------------
  // VehicleInfoMessageImpl: the collection as a list

  /** The keys of the collection from `low` upwards, in ascending order (std::map iteration). */
  function KeysFrom(collection: Collection, low: nat): (keys: seq<Uint16>)
    requires low <= 0x1_0000
    ensures forall i :: 0 <= i < |keys| ==> low <= keys[i] && keys[i] in collection
    ensures forall i, j :: 0 <= i < j < |keys| ==> keys[i] < keys[j]
    ensures forall a :: a in collection && low <= a ==> a in keys
    decreases 0x1_0000 - low
  {
    if low == 0x1_0000 then []
    else if low in collection then [low as Uint16] + KeysFrom(collection, low + 1)
    else KeysFrom(collection, low + 1)
  }

  /** All keys of the collection, ascending. */
  function AscendingKeys(collection: Collection): (keys: seq<Uint16>)
    ensures forall i, j :: 0 <= i < j < |keys| ==> keys[i] < keys[j]
    ensures forall a :: a in collection <==> a in keys
  {
    KeysFrom(collection, 0)
  }

  /**
   * `VehicleInfoMessageImpl(vehicle_info_collection)`: one list entry per map
   * entry, pushed in the map's ascending key order.
   */
  function VehicleList(collection: Collection): (list: seq<VehicleAddrInfo>)
    ensures |list| == |AscendingKeys(collection)|
    ensures forall i :: 0 <= i < |list| ==> list[i] == collection[AscendingKeys(collection)[i]]
  {
    var keys := AscendingKeys(collection);
    seq(|keys|, i requires 0 <= i < |keys| => collection[keys[i]])
  }

  /** A strictly ascending sequence holding exactly the members of a set has the set's size. */
  lemma {:induction false} AscendingCardinality(keys: seq<Uint16>, s: set<Uint16>)
    requires forall i, j :: 0 <= i < j < |keys| ==> keys[i] < keys[j]
    requires forall a :: a in s <==> a in keys
    ensures |keys| == |s|
    decreases |keys|
  {
    if keys != [] {
      var rest := keys[1..];
      assert forall a :: a in s - {keys[0]} <==> a in rest;
      AscendingCardinality(rest, s - {keys[0]});
    }
  }

  /**
   * The list has one entry per logical address; for a well-keyed collection
   * its entries are exactly the stored records, by strictly ascending address.
   */
  lemma VehicleListContents(collection: Collection)
    ensures |VehicleList(collection)| == |collection|
    ensures forall a :: a in collection ==> collection[a] in VehicleList(collection)
    ensures forall r :: r in VehicleList(collection) ==> r in collection.Values
    ensures WellKeyed(collection) ==>
              forall i, j :: 0 <= i < j < |VehicleList(collection)| ==>
                VehicleList(collection)[i].logicalAddress < VehicleList(collection)[j].logicalAddress
  {
    var keys := AscendingKeys(collection);
    var list := VehicleList(collection);
    AscendingCardinality(keys, collection.Keys);
    forall a | a in collection
      ensures collection[a] in list
    {
      var i :| 0 <= i < |keys| && keys[i] == a;
      assert list[i] == collection[a];
    }
    forall r | r in list
      ensures r in collection.Values
    {
      var i :| 0 <= i < |list| && list[i] == r;
      assert keys[i] in collection;
    }
  }

  // ---------------------------------------------------------------------------
  // SendVehicleIdentificationRequest

  /** The request's preselection; its contents do not influence the conversation. */
  datatype VehicleInfoListRequest = VehicleInfoListRequest(preselectionMode: Byte, preselectionValue: seq<Byte>)

  /** What the connection's `Transmit` reports; only `kTransmitFailed` is told apart. */
  datatype TransmissionResult = TransmitOk | TransmitFailed

  datatype VehicleResponseResult = StatusOk | TransmitFailedResult | InvalidParameters | NoResponseReceived

  /** Result code, the vehicle list (null unless StatusOk) and the collection afterwards. */
  datatype SendResult = SendResult(
    result: VehicleResponseResult,
    vehicleList: Option<seq<VehicleAddrInfo>>,
    collection: Collection)

  /** `VerifyVehicleInfoRequest`: every request is accepted, whatever its preselection. */
  function VerifyVehicleInfoRequest(request: VehicleInfoListRequest): (ok: bool)
    ensures ok
  {
    true
  }

  /**
   * `SendVehicleIdentificationRequest`, with the connection's transmission
   * result as a parameter. The collection is inspected as soon as `Transmit`
   * returns; any response window lies inside that call. `collection` is what
   * had arrived by then, including responses left from earlier rounds.
   */
  function SendVehicleIdentificationRequest(
    collection: Collection, request: VehicleInfoListRequest, transmission: TransmissionResult): (r: SendResult)
    ensures r.result != InvalidParameters
    ensures transmission == TransmitFailed ==>
              r.result == TransmitFailedResult && r.vehicleList == None && r.collection == collection
    ensures transmission != TransmitFailed && collection == map[] ==>
              r.result == NoResponseReceived && r.vehicleList == None && r.collection == map[]
    ensures transmission != TransmitFailed && collection != map[] ==>
              && r.result == StatusOk && r.collection == map[]
              && r.vehicleList.Some? && |r.vehicleList.value| == |collection|
              && (forall a :: a in collection ==> collection[a] in r.vehicleList.value)
              && (forall v :: v in r.vehicleList.value ==> v in collection.Values)
    ensures transmission != TransmitFailed && collection != map[] ==>
              r.vehicleList == Some(VehicleList(collection))
    ensures r.result == StatusOk <==> r.vehicleList.Some?
  {
    if VerifyVehicleInfoRequest(request) then
      if transmission != TransmitFailed then
        if collection == map[] then SendResult(NoResponseReceived, None, collection)
        else
          VehicleListContents(collection);
          SendResult(StatusOk, Some(VehicleList(collection)), map[])
      else SendResult(TransmitFailedResult, None, collection)
    else SendResult(InvalidParameters, None, collection)
  }

  /**
   * A discovery round with no response reports NoResponseReceived; responses
   * handled afterwards are all returned by the next round, by ascending
   * logical address; the round after that finds the collection empty again.
   */
  lemma EmptyThenResponses(
    request: VehicleInfoListRequest, messages: seq<Option<VdMessage>>, transmission: TransmissionResult)
    requires transmission == TransmitOk
    requires AllDecodable(messages)
    requires exists i :: 0 <= i < |messages| && messages[i].Some?
    ensures var first := SendVehicleIdentificationRequest(map[], request, transmission);
            var filled := HandleMessages(first.collection, messages);
            var second := SendVehicleIdentificationRequest(filled, request, transmission);
            var third := SendVehicleIdentificationRequest(second.collection, request, transmission);
            && first.result == NoResponseReceived
            && second.result == StatusOk && second.vehicleList == Some(VehicleList(filled))
            && third.result == NoResponseReceived
  {
    var i :| 0 <= i < |messages| && messages[i].Some?;
    var key := ResponseKey(messages[i]);
    FirstResponseHas(messages, i);
    FirstResponseWins(map[], messages, key);
  }

  /** A sequence holding a response for a key has a first response for it. */
  lemma {:induction false} FirstResponseHas(messages: seq<Option<VdMessage>>, i: nat)
    requires AllDecodable(messages)
    requires i < |messages| && messages[i].Some?
    ensures FirstResponse(messages, ResponseKey(messages[i])).Some?
    decreases i
  {
    var key := ResponseKey(messages[i]);
    if i > 0 && !(messages[0].Some? && ResponseKey(messages[0]) == key) {
      var rest := messages[1..];
      assert rest[i - 1] == messages[i];
      assert AllDecodable(rest);
      FirstResponseHas(rest, i - 1);
      assert FirstResponse(messages, key) == FirstResponse(rest, key);
    }
  }

  // ---------------------------------------------------------------------------
  // IndicateMessage

  datatype IndicationResult = IndicationOk | IndicationNOk

  /**
   * `IndicateMessage`: an empty payload is refused with a null message;
   * otherwise a fresh message is handed out whose payload has been resized to
   * `size` bytes, all zero. The addresses, channel, priority and protocol kind
   * the source also takes are ignored by it and are not parameters here.
   */
  function IndicateMessage(size: nat, payloadInfo: seq<Byte>): (r: (IndicationResult, Option<VdMessage>))
    ensures payloadInfo == [] <==> r.0 == IndicationNOk
    ensures r.0 == IndicationNOk <==> r.1 == None
    ensures r.1.Some? ==> |r.1.value.payload| == size
                          && forall i :: 0 <= i < size ==> r.1.value.payload[i] == 0
  {
    if payloadInfo != [] then (IndicationOk, Some(VdMessage("", Zeros(size))))
    else (IndicationNOk, None)
  }
}
