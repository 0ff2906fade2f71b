/** The BACnet/IP server object with its analog values, which are updated in place. */
module BacnetServer {
  import opened Wrappers
  import opened Bytes
  import opened BacnetTags
  import opened BacnetStack

  class AnalogValue {
    const instance: ObjectInstance
    const objectName: seq<Byte>
    const description: seq<Byte>
    const units: nat
    var presentValue: Real

    ghost function Contents(): Analog
      reads this
    {
      Analog(instance, objectName, description, presentValue, units)
    }

    constructor (value: Analog)
      ensures Contents() == value
    {
      instance := value.instance;
      objectName := value.objectName;
      description := value.description;
      units := value.units;
      presentValue := value.presentValue;
    }
  }

  /** The server's own copies of the configured values: no two instances share an object. */
  method CopyValues(config: Table) returns (values: map<nat, AnalogValue>)
    ensures values.Keys == config.Keys && fresh(values.Values)
    ensures forall i :: i in values ==> values[i].Contents() == config[i]
    ensures forall i, j :: i in values && j in values && i != j ==> values[i] != values[j]
  {
    values := map[];
    var pending := config.Keys;
    while pending != {}
      invariant pending <= config.Keys && values.Keys == config.Keys - pending
      invariant forall i :: i in values ==> fresh(values[i]) && values[i].Contents() == config[i]
      invariant forall i, j :: i in values && j in values && i != j ==> values[i] != values[j]
      decreases pending
    {
      var i :| i in pending;
      var value := new AnalogValue(config[i]);
      values := values[i := value];
      pending := pending - {i};
    }
  }

  class Server {
    const device: Device
    const analogValues: map<nat, AnalogValue>

    ghost predicate Valid() {
      forall i, j :: i in analogValues && j in analogValues && i != j ==> analogValues[i] != analogValues[j]
    }

    ghost function Contents(): Table
      reads analogValues.Values
    {
      map i | i in analogValues :: analogValues[i].Contents()
    }

    constructor (device: Device, config: Table)
      ensures Valid() && this.device == device && Contents() == config && fresh(analogValues.Values)
    {
      var values := CopyValues(config);
      this.device := device;
      this.analogValues := values;
    }

    /** `None` is the KeyError of an unknown instance. */
    method GetPresentValue(instance: nat) returns (value: Option<Real>)
      ensures value == if instance in Contents() then Some(Contents()[instance].presentValue) else None
    {
      if instance !in analogValues {
        return None;
      }
      return Some(analogValues[instance].presentValue);
    }

    /** Answers false for the KeyError of an unknown instance. */
    method SetPresentValue(instance: nat, value: Real) returns (found: bool)
      requires Valid()
      modifies analogValues.Values
      ensures found <==> instance in old(Contents())
      ensures Contents() == if found then SetPresent(old(Contents()), instance, value) else old(Contents())
    {
      if instance !in analogValues {
        return false;
      }
      analogValues[instance].presentValue := value;
      return true;
    }

    method WriteProperty(request: WriteRequest) returns (accepted: bool)
      requires Valid()
      modifies analogValues.Values
      ensures accepted <==> AcceptedWrite(old(Contents()), request).Some?
      ensures match AcceptedWrite(old(Contents()), request)
              case Some((i, r)) => Contents() == SetPresent(old(Contents()), i, r)
              case None => Contents() == old(Contents())
    {
      var Reference(ObjectId(kind, instance), property) := request.reference;
      if kind != ANALOG_VALUE || property != PROPERTY_PRESENT_VALUE {
        return false;
      }
      var decoded := DecodeApplicationReal(request.value);
      if decoded.None? {
        return false;
      }
      if instance !in analogValues {
        return false;
      }
      analogValues[instance].presentValue := decoded.value;
      return true;
    }

    method ReadAnalogValueProperty(instance: nat, property: nat) returns (value: Outcome<seq<Byte>>)
      ensures value == ReadAnalogProperty(Contents(), instance, property)
    {
      if instance !in analogValues {
        return Nothing;
      }
      var a := analogValues[instance];
      var record := Analog(a.instance, a.objectName, a.description, a.presentValue, a.units);
      if !AnalogEncodable(record) {
        return Raise;
      }
      return Picked(EncodeAnalogProperty(record, property));
    }

    method HandleRead(invokeId: Byte, payload: seq<Byte>) returns (reply: Outcome<seq<Byte>>)
      ensures reply == HandleReadProperty(device, Contents(), invokeId, payload)
    {
      hide ParsePropertyReference, ReadAnalogProperty, ReadDeviceProperty, EncodeAck, TagEncodable;
      var parsed := ParsePropertyReference(payload);
      if !parsed.Reply? {
        return if parsed.Raise? then Raise else Nothing;
      }
      var Reference(ObjectId(kind, instance), property) := parsed.value;
      var value := Nothing;
      if kind == DEVICE && instance == device.instance {
        value := ReadDeviceProperty(device, property);
      } else if kind == ANALOG_VALUE {
        value := ReadAnalogValueProperty(instance, property);
      }
      assert value == ReadProperty(device, Contents(), kind, instance, property);
      if !value.Reply? {
        return value;
      }
      SmallIsOneOctet(property);
      return Reply([COMPLEX_ACK, invokeId, READ_PROPERTY] + EncodeAck(kind, instance, property, value.value));
    }

    method HandleWrite(invokeId: Byte, payload: seq<Byte>) returns (reply: Outcome<seq<Byte>>)
      requires Valid()
      modifies analogValues.Values
      ensures Effect(reply, Contents()) == HandleWriteProperty(old(Contents()), invokeId, payload)
    {
      hide ParseWriteRequest, AcceptedWrite;
      var parsed := ParseWriteRequest(payload);
      if !parsed.Reply? {
        return if parsed.Raise? then Raise else Nothing;
      }
      var accepted := WriteProperty(parsed.value);
      if !accepted {
        return Nothing;
      }
      return Reply([SIMPLE_ACK, invokeId, WRITE_PROPERTY]);
    }

    method Apdu(apdu: seq<Byte>) returns (reply: Outcome<seq<Byte>>)
      requires Valid()
      modifies analogValues.Values
      ensures Effect(reply, Contents()) == HandleApdu(device, old(Contents()), apdu)
    {
      hide HandleReadProperty, HandleWriteProperty, HandleUnconfirmed;
      if |apdu| < 2 {
        return Nothing;
      }
      if apdu[0] / 0x10 == 1 {
        return HandleUnconfirmed(device, apdu);
      }
      if apdu[0] / 0x10 != 0 || |apdu| < 4 {
        return Nothing;
      }
      if apdu[3] == READ_PROPERTY {
        reply := HandleRead(apdu[2], apdu[4..]);
      } else if apdu[3] == WRITE_PROPERTY {
        reply := HandleWrite(apdu[2], apdu[4..]);
      } else {
        reply := Nothing;
      }
    }

    /** Steps an offset over the routing fields that the control octet announces. */
    method Npdu(npdu: seq<Byte>) returns (reply: Outcome<seq<Byte>>)
      requires Valid()
      modifies analogValues.Values
      ensures Effect(reply, Contents()) == HandleNpdu(device, old(Contents()), npdu)
    {
      hide HandleApdu;
      if |npdu| < 2 || npdu[0] != NPDU_VERSION {
        return Nothing;
      }
      var control := npdu[1];
      var offset := 2;
      if HasDestination(control) {
        if |npdu| < offset + 3 {
          return Nothing;
        }
        offset := offset + 3 + npdu[offset + 2] as int + 1;
      }
      if HasSource(control) {
        if |npdu| < offset + 3 {
          return Nothing;
        }
        offset := offset + 3 + npdu[offset + 2] as int;
      }
      if IsNetworkMessage(control) {
        offset := offset + 1;
      }
      if |npdu| < offset {
        return Nothing;
      }
      reply := Apdu(npdu[offset..]);
      reply := WrapNpdu(reply);
    }

    method Handle(payload: seq<Byte>) returns (reply: Outcome<seq<Byte>>)
      requires Valid()
      modifies analogValues.Values
      ensures Effect(reply, Contents()) == HandleDatagram(device, old(Contents()), payload)
    {
      hide HandleNpdu;
      if |payload| < 4 || payload[0] != BVLC_BACNET_IP {
        return Nothing;
      }
      if payload[1] !in {ORIGINAL_UNICAST, ORIGINAL_BROADCAST} {
        return Nothing;
      }
      if UnpackU16Be(payload, 2) != |payload| {
        return Nothing;
      }
      reply := Npdu(payload[4..]);
      reply := WrapBvlc(reply);
    }
  }
}
