/** The analog values over whole runs of datagrams and API calls. */
module BacnetRuns {
  import opened Wrappers
  import opened Bytes
  import opened BacnetTags
  import opened BacnetStack
  import opened BacnetRequests
  import opened BacnetReplies

  datatype Input = Datagram(payload: seq<Byte>) | ApiSet(instance: nat, value: Real)

  /** An API call for an unknown instance is a KeyError and changes nothing. */
  function Next(d: Device, t: Table, input: Input): Table {
    match input
    case Datagram(payload) => HandleDatagram(d, t, payload).table
    case ApiSet(i, r) => if i in t then SetPresent(t, i, r) else t
  }

  function Run(d: Device, t: Table, inputs: seq<Input>): Table {
    if inputs == [] then t
    else Next(d, Run(d, t, inputs[..|inputs| - 1]), inputs[|inputs| - 1])
  }

  /** The present value a datagram asks to write, told from its bytes alone. */
  function WriteIn(payload: seq<Byte>): Option<(nat, Real)> {
    match RequestApdu(payload)
    case None => None
    case Some(apdu) =>
      if |apdu| < 4 || apdu[0] / 0x10 != 0 || apdu[3] != 0x0F then None
      else
        match ParseWriteRequest(apdu[4..])
        case Reply(WriteRequest(Reference(ObjectId(kind, i), p), value)) =>
          if kind == 2 && p == 85 && |value| == 5 && value[0] == 0x44 then Some((i, value[1..5])) else None
        case _ => None
  }

  function WriteOf(input: Input): Option<(nat, Real)> {
    match input
    case Datagram(payload) => WriteIn(payload)
    case ApiSet(i, r) => Some((i, r))
  }

  /** A reply that acknowledges a write. */
  predicate IsWriteAck(outcome: Outcome<seq<Byte>>) {
    outcome.Reply? && RequestApdu(outcome.value).Some?
    && var apdu := RequestApdu(outcome.value).value; |apdu| == 3 && apdu[0] == 0x20 && apdu[2] == 0x0F
  }

  /**
   * A datagram that asks to write an existing instance is acknowledged under its own invoke id and
   * changes that one present value; no other datagram is acknowledged or changes anything.
   */
  lemma DatagramWrites(d: Device, t: Table, payload: seq<Byte>)
    ensures var e := HandleDatagram(d, t, payload);
            match WriteIn(payload)
            case Some((i, r)) =>
              if i in t
              then && e.table == SetPresent(t, i, r) && IsWriteAck(e.outcome)
                   && RequestApdu(payload).Some? && |RequestApdu(payload).value| >= 4
                   && RequestApdu(e.outcome.value).value[1] == RequestApdu(payload).value[2]
              else e == Effect(Nothing, t)
            case None => e.table == t && !IsWriteAck(e.outcome)
  {
    hide RequestApdu, HandleDatagram, ParseWriteRequest, HandleReadProperty, HandleUnconfirmed;
    DatagramByApdu(d, t, payload);
    if RequestApdu(payload).Some? {
      var apdu := RequestApdu(payload).value;
      var outcome := HandleApdu(d, t, apdu).outcome;
      if outcome.Reply? {
        if HandleDatagram(d, t, payload).outcome.Reply? {
          RepliesAreWellFormed(d, t, payload);
          if WriteIn(payload).None? {
            OtherRepliesDiffer(d, t, apdu);
          }
        }
        if WriteIn(payload).Some? {
          ReplyShape(outcome.value);
        }
      }
    }
  }

  lemma OtherRepliesDiffer(d: Device, t: Table, apdu: seq<Byte>)
    requires |apdu| >= 2 && HandleApdu(d, t, apdu).outcome.Reply?
    requires !(|apdu| >= 4 && apdu[0] / 0x10 == 0 && apdu[3] == WRITE_PROPERTY)
    ensures |HandleApdu(d, t, apdu).outcome.value| >= 1 && HandleApdu(d, t, apdu).outcome.value[0] != 0x20
  {
  }

  /** The value of the last input that asks to write an instance. */
  function LastWrite(inputs: seq<Input>, i: nat): Option<Real> {
    if inputs == [] then None
    else
      match WriteOf(inputs[|inputs| - 1])
      case Some((j, r)) => if i == j then Some(r) else LastWrite(inputs[..|inputs| - 1], i)
      case None => LastWrite(inputs[..|inputs| - 1], i)
  }

  /**
   * Conservation: after every run the table has its configured instances and, apart from present
   * values, its configured fields; each present value is the last one written, else the configured.
   */
  lemma {:induction false} TableIsLastWrites(d: Device, t: Table, inputs: seq<Input>)
    ensures Run(d, t, inputs).Keys == t.Keys
    ensures forall i :: i in t ==>
              Run(d, t, inputs)[i] == t[i].(presentValue := LastWrite(inputs, i).Or(t[i].presentValue))
    decreases |inputs|
  {
    hide HandleDatagram, WriteIn, IsWriteAck;
    if inputs != [] {
      var n := |inputs| - 1;
      TableIsLastWrites(d, t, inputs[..n]);
      if inputs[n].Datagram? {
        DatagramWrites(d, Run(d, t, inputs[..n]), inputs[n].payload);
      }
    }
  }

  /**
   * Last write wins through the full stack: after every run, a read of a present value answers the
   * octets of the last write of that instance, by datagram or API, else the configured ones.
   */
  lemma ReadsLastWrite(d: Device, t: Table, inputs: seq<Input>, route: Route, flags: Byte, o: Options, invokeId: Byte,
                       i: ObjectInstance)
    requires RouteFits(route) && PlainFlags(flags) && OptionsFit(o)
    requires i in t && AnalogEncodable(t[i])
    ensures TagEncodable(85)
    ensures var read := EncodeNpdu(route, flags, ReadApdu(o, invokeId, 2, i, 85));
            var value: Real := LastWrite(inputs, i).Or(t[i].presentValue);
            4 + |read| < 0x1_0000
            && var e := HandleDatagram(d, Run(d, t, inputs), EncodeDatagram(ORIGINAL_UNICAST, read));
               e.table == Run(d, t, inputs) && e.outcome.Reply?
               && RequestApdu(e.outcome.value)
                  == Some([COMPLEX_ACK, invokeId, READ_PROPERTY]
                          + EncodeAck(ANALOG_VALUE, i, PROPERTY_PRESENT_VALUE, EncodeApplicationReal(value)))
  {
    hide Run, LastWrite, EncodeNpdu, EncodeDatagram, HandleApdu, HandleDatagram, EncodeAck, ReadApdu, RequestApdu;
    hide Wrapped, ReadProperty;
    TableIsLastWrites(d, t, inputs);
    var t' := Run(d, t, inputs);
    ReadLength(route, flags, o, invokeId, ANALOG_VALUE, i, PROPERTY_PRESENT_VALUE);
    EnvelopeDoesNotMatter(d, t', ORIGINAL_UNICAST, route, flags,
                          ReadApdu(o, invokeId, ANALOG_VALUE, i, PROPERTY_PRESENT_VALUE));
    ReadApduHandled(d, t', o, invokeId, ANALOG_VALUE, i, PROPERTY_PRESENT_VALUE);
    PresentValueRead(d, t', i);
    AckLength(ANALOG_VALUE, i, PROPERTY_PRESENT_VALUE, EncodeApplicationReal(t'[i].presentValue));
    ReplyShape([COMPLEX_ACK, invokeId, READ_PROPERTY]
               + EncodeAck(ANALOG_VALUE, i, PROPERTY_PRESENT_VALUE, EncodeApplicationReal(t'[i].presentValue)));
  }
}
