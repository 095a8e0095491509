/** The Modbus TCP client: request frames, transaction ids, and decoding of register and bit replies. */
module Modbus {
  import opened Options

  type Byte = b: int | 0 <= b < 256

  const READ_COILS := 1
  const READ_INPUT_BITS := 2
  const READ_REGS := 3
  const READ_INPUT_REGS := 4
  const WRITE_COIL := 5
  const WRITE_REG := 6
  const MAX_MSG_LENGTH := 260
  const MAX_RECEIVED := 1024

  /** (uint8_t)(v >> 8) and (uint8_t)(v & 0xff) of an int. */
  function High(v: int): Byte { v / 256 % 256 }

  function Low(v: int): Byte { v % 256 }

  function Word(high: Byte, low: Byte): int { high * 256 + low }

  lemma WordOfBytes(v: int)
    ensures Word(High(v), Low(v)) == v % 65536
  {
  }

  // ---- Frames ----

  /** A request with two words of data, as a server reads it: the MBAP header of section 3.1.3 of the
      MODBUS Messaging on TCP/IP Implementation Guide V1.0b, the function code and the data. */
  datatype Request = Request(transaction: int, unit: int, func: int, address: int, argument: int)

  function ReadRequest(frame: seq<Byte>): Option<Request> {
    if |frame| != 12 || Word(frame[2], frame[3]) != 0 || Word(frame[4], frame[5]) != |frame| - 6 then None
    else Some(Request(Word(frame[0], frame[1]), frame[6], frame[7],
                      Word(frame[8], frame[9]), Word(frame[10], frame[11])))
  }

  /** The twelve bytes of a read, or of the write of a single value. */
  function Frame(id: int, unit: int, func: int, address: int, argument: int): seq<Byte> {
    [High(id), Low(id), 0, 0, 0, 6, Low(unit), Low(func), High(address), Low(address), High(argument), Low(argument)]
  }

  /** The bytes that do not depend on the kind of request, laid over a buffer. */
  function WithHead(bytes: seq<Byte>, frame: seq<Byte>): seq<Byte>
    requires |bytes| >= 10 && |frame| >= 10
  {
    frame[..5] + [bytes[5]] + frame[6..10] + bytes[10..]
  }

  lemma FrameReads(id: int, unit: int, func: int, address: int, argument: int)
    ensures ReadRequest(Frame(id, unit, func, address, argument)) ==
      Some(Request(id % 65536, unit % 256, func % 256, address % 65536, argument % 65536))
  {
    WordOfBytes(id);
    WordOfBytes(address);
    WordOfBytes(argument);
  }

  /** The id of request number k, counting from 0. */
  function IdOf(k: nat): int { (1 + k) % 65536 }

  /** A transaction id comes again after exactly 65536 requests. */
  lemma IdsAreDistinct(j: nat, k: nat)
    ensures IdOf(j) == IdOf(k) <==> (j - k) % 65536 == 0
  {
    var d := 65536;
    if IdOf(j) == IdOf(k) {
      assert j - k == d * ((1 + j) / d - (1 + k) / d);
      MultipleHasNoRest((1 + j) / d - (1 + k) / d);
    }
    if (j - k) % d == 0 {
      assert 1 + j == d * ((j - k) / d + (1 + k) / d) + (1 + k) % d;
    }
  }

  lemma MultipleHasNoRest(n: int)
    ensures 65536 * n % 65536 == 0
  {
  }

  // ---- Replies ----

  /** The reply to a read: header, function code, byte count, payload (sections 6.1 to 6.4 of the MODBUS
      Application Protocol Specification V1.1b3). */
  function Reply(transaction: int, unit: Byte, func: Byte, payload: seq<Byte>): (reply: seq<Byte>)
    requires |payload| <= 250
    ensures |reply| == 9 + |payload| && reply[7] == func
    ensures forall j | 0 <= j < |payload| :: reply[9 + j] == payload[j]
  {
    var length := 3 + |payload|;
    var header := [High(transaction), Low(transaction), 0, 0, High(length), Low(length), unit, func, |payload|];
    header + payload
  }

  /** The payload is where the loops of the read functions look for it. */
  ghost predicate Carries(message: seq<Byte>, payload: seq<Byte>) {
    9 + |payload| <= |message| && forall j | 0 <= j < |payload| :: message[9 + j] == payload[j]
  }

  lemma ReplyCarries(transaction: int, unit: Byte, func: Byte, payload: seq<Byte>, message: seq<Byte>)
    requires |payload| <= 250 && Reply(transaction, unit, func, payload) <= message
    ensures Carries(message, payload) && message[7] == func
  {
    var reply := Reply(transaction, unit, func, payload);
    forall j | 0 <= j < |payload| ensures message[9 + j] == payload[j] { assert reply[9 + j] == message[9 + j]; }
  }

  /** The high byte of each register first. */
  function PackRegisters(values: seq<int>): (payload: seq<Byte>)
    ensures |payload| == 2 * |values|
  {
    seq(2 * |values|, j requires 0 <= j < 2 * |values| =>
      if j % 2 == 0 then High(values[j / 2]) else Low(values[j / 2]))
  }

  /** Eight bits to a byte, the first one lowest; the last byte is filled up with zeros. */
  function PackByte(bits: seq<bool>): Byte
    requires |bits| <= 8
  {
    PowerGrows(|bits|, 8);
    assert Power(8) == 256;
    PackValue(bits)
  }

  function PackValue(bits: seq<bool>): (v: nat)
    ensures v < Power(|bits|)
  {
    if bits == [] then 0 else (if bits[0] then 1 else 0) + 2 * PackValue(bits[1..])
  }

  function Power(n: nat): nat { if n == 0 then 1 else 2 * Power(n - 1) }

  lemma PowerGrows(m: nat, n: nat)
    requires m <= n
    ensures Power(m) <= Power(n)
  {
    if m < n { PowerGrows(m, n - 1); }
  }

  function PackBits(bits: seq<bool>): (payload: seq<Byte>)
    ensures |payload| == (|bits| + 7) / 8
  {
    if |bits| == 0 then []
    else if |bits| <= 8 then [PackByte(bits)]
    else [PackByte(bits[..8])] + PackBits(bits[8..])
  }

  /** v >> n */
  function ShiftRight(v: nat, n: nat): nat {
    if n == 0 then v else ShiftRight(v / 2, n - 1)
  }

  /** (v >> n) & 1 */
  function BitOf(v: nat, n: nat): bool { ShiftRight(v, n) % 2 == 1 }

  lemma {:induction false} PackedBit(bits: seq<bool>, k: nat)
    ensures ShiftRight(PackValue(bits), k) % 2 == 1 <==> k < |bits| && bits[k]
  {
    if bits == [] {
      ShiftZero(k);
    } else if k > 0 {
      PackedBit(bits[1..], k - 1);
    }
  }

  lemma ShiftZero(k: nat)
    ensures ShiftRight(0, k) == 0
  {
  }

  /** What the loops of the read functions compute from a message. */
  function RegisterAt(message: seq<Byte>, i: nat): int
    requires 10 + 2 * i < |message|
  {
    Word(message[9 + 2 * i], message[10 + 2 * i])
  }

  function BitAt(message: seq<Byte>, i: nat): bool
    requires 9 + i / 8 < |message|
  {
    BitOf(message[9 + i / 8], i % 8)
  }

  lemma RegistersDecode(values: seq<int>, message: seq<Byte>, i: nat)
    requires forall v | v in values :: 0 <= v < 65536
    requires Carries(message, PackRegisters(values)) && i < |values|
    ensures RegisterAt(message, i) == values[i]
  {
    var v, payload := values[i], PackRegisters(values);
    assert v in values;
    assert message[9 + 2 * i] == payload[2 * i] == High(v);
    assert message[9 + (2 * i + 1)] == payload[2 * i + 1] == Low(v);
    WordOfBytes(v);
  }

  lemma {:induction false} PackedAt(bits: seq<bool>, payload: seq<Byte>, i: nat)
    requires payload == PackBits(bits) && i < |bits|
    ensures i / 8 < |payload| && BitOf(payload[i / 8], i % 8) == bits[i]
  {
    EighthOf(i, |bits|);
    if |bits| <= 8 {
      PackedBit(bits, i);
    } else if i < 8 {
      PackedBit(bits[..8], i);
    } else {
      EighthBefore(i);
      PackedAt(bits[8..], payload[1..], i - 8);
    }
  }

  lemma BitsDecode(bits: seq<bool>, payload: seq<Byte>, message: seq<Byte>, i: nat)
    requires payload == PackBits(bits) && Carries(message, payload) && i < |bits|
    ensures i / 8 < |payload| && BitAt(message, i) == bits[i]
  {
    EighthOf(i, |bits|);
    PackedAt(bits, payload, i);
    BitFound(message, payload, i);
  }

  lemma AllBitsDecode(bits: seq<bool>, payload: seq<Byte>, message: seq<Byte>)
    requires payload == PackBits(bits) && Carries(message, payload)
    ensures forall i | 0 <= i < |bits| :: 9 + i / 8 < |message| && BitAt(message, i) == bits[i]
  {
    forall i | 0 <= i < |bits| ensures 9 + i / 8 < |message| && BitAt(message, i) == bits[i] {
      BitsDecode(bits, payload, message, i);
    }
  }

  lemma BitFound(message: seq<Byte>, payload: seq<Byte>, i: nat)
    requires Carries(message, payload) && i / 8 < |payload|
    ensures BitAt(message, i) == BitOf(payload[i / 8], i % 8)
  {
    CarriesAt(message, payload, i / 8);
  }

  lemma EighthBefore(i: nat)
    requires i >= 8
    ensures (i - 8) / 8 == i / 8 - 1 && (i - 8) % 8 == i % 8
  {
  }

  lemma EighthOf(i: nat, n: nat)
    requires i < n
    ensures i / 8 < (n + 7) / 8
  {
  }

  lemma CarriesAt(message: seq<Byte>, payload: seq<Byte>, j: nat)
    requires Carries(message, payload) && j < |payload|
    ensures 9 + j < |message| && message[9 + j] == payload[j]
  {
  }

  /** The message has room for what the loops look at exactly up to these amounts, while the guards
      of the functions let 65535 registers and 2040 bits through. */
  lemma RegistersFit(amount: nat)
    ensures (forall i | 0 <= i < amount :: 10 + 2 * i < MAX_MSG_LENGTH) <==> amount <= 125
  {
    if amount > 125 { assert 10 + 2 * 125 >= MAX_MSG_LENGTH; }
  }

  lemma BitsFit(amount: nat)
    ensures (forall i | 0 <= i < amount :: 9 + i / 8 < MAX_MSG_LENGTH) <==> amount <= 2008
  {
    if amount > 2008 { assert 9 + 2008 / 8 >= MAX_MSG_LENGTH; }
  }

  // ---- The client ----

  /** Frame number k is this request, with the id that was due. */
  ghost predicate Carried(frame: seq<Byte>, request: Request, k: nat) {
    ReadRequest(frame) == Some(request) && request.transaction == IdOf(k)
  }

  /** A request as the frame of number k can hold it. */
  function Cut(k: nat, unit: int, func: int, address: int, argument: int): Request {
    Request(IdOf(k), unit % 256, func % 256, address % 65536, argument % 65536)
  }

  lemma FrameCarries(id: int, k: nat, unit: int, func: int, address: int, argument: int)
    requires id % 65536 == IdOf(k)
    ensures Carried(Frame(id, unit, func, address, argument), Cut(k, unit, func, address, argument), k)
  {
    FrameReads(id, unit, func, address, argument);
  }

  /** How a call ends. Overrun: the loop left the 260 bytes of the message. */
  datatype Outcome = Done | AmountException | ConnectException | ServerException | Overrun

  class Client {
    var msgId: int
    var slaveId: int
    var connected: bool
    /** Every frame that was sent, and the request it stands for. */
    ghost var sent: seq<seq<Byte>>
    ghost var requests: seq<Request>

    /** The ids count the frames, and the counter is an int that wraps around. */
    ghost predicate Valid()
      reads this
    {
      && -0x8000_0000 <= msgId < 0x8000_0000
      && msgId % 65536 == IdOf(|sent|)
      && |requests| == |sent|
      && forall k | 0 <= k < |sent| :: Carried(sent[k], requests[k], k)
    }

    constructor ()
      ensures Valid() && sent == [] && requests == [] && slaveId == 1 && !connected
    {
      msgId, slaveId, connected, sent, requests := 1, 1, false, [], [];
    }

    /** Any 65536 consecutive requests carry different ids. */
    lemma ConsecutiveIdsDiffer(j: nat, k: nat)
      requires Valid() && j < k < |sent| && k - j < 65536
      ensures requests[j].transaction != requests[k].transaction
      ensures ReadRequest(sent[j]) == Some(requests[j]) && ReadRequest(sent[k]) == Some(requests[k])
      ensures sent[j][..2] != sent[k][..2]
    {
      IdsAreDistinct(j, k);
      assert Carried(sent[j], requests[j], j) && Carried(sent[k], requests[k], k);
      assert sent[j][..2] == [sent[j][0], sent[j][1]] && sent[k][..2] == [sent[k][0], sent[k][1]];
    }

    /** ModbusBuildRequest: everything but the low byte of the length and the data. */
    method BuildRequest(toSend: array<Byte>, address: int, func: int)
      requires toSend.Length >= 10
      modifies toSend
      ensures toSend[..] == WithHead(old(toSend[..]), Frame(msgId, slaveId, func, address, 0))
    {
      toSend[0] := High(msgId);
      toSend[1] := Low(msgId);
      toSend[2] := 0;
      toSend[3] := 0;
      toSend[4] := 0;
      toSend[6] := Low(slaveId);
      toSend[7] := Low(func);
      toSend[8] := High(address);
      toSend[9] := Low(address);
      ghost var frame := Frame(msgId, slaveId, func, address, 0);
      assert toSend[..5] == frame[..5] && toSend[6..10] == frame[6..10];
      assert toSend[10..] == old(toSend[10..]);
    }

    /** ModbusSend: the counter goes on, whatever becomes of the frame. */
    method Send(toSend: array<Byte>, ghost request: Request)
      requires Valid() && Carried(toSend[..], request, |sent|)
      modifies this`msgId, this`sent, this`requests
      ensures Valid() && sent == old(sent) + [toSend[..]] && requests == old(requests) + [request]
    {
      sent, requests := sent + [toSend[..]], requests + [request];
      NextId(msgId, |sent| - 1);
      msgId := if msgId == 0x7fff_ffff then -0x8000_0000 else msgId + 1;
    }

    static lemma NextId(id: int, k: nat)
      requires id % 65536 == IdOf(k) && -0x8000_0000 <= id < 0x8000_0000
      ensures (if id == 0x7fff_ffff then -0x8000_0000 else id + 1) % 65536 == IdOf(k + 1)
    {
    }

    method BuildFrame(address: int, func: int, argument: int) returns (toSend: array<Byte>)
      ensures fresh(toSend) && toSend[..] == Frame(msgId, slaveId, func, address, argument)
    {
      toSend := new Byte[12];
      BuildRequest(toSend, address, func);
      toSend[5] := 6;
      toSend[10] := High(argument);
      toSend[11] := Low(argument);
    }

    /** A frame of twelve bytes: ModbusRead, and the single writes of ModbusWrite. */
    method SendRequest(address: int, func: int, argument: int)
      requires Valid()
      modifies this`msgId, this`sent, this`requests
      ensures Valid() && requests == old(requests) + [Cut(|old(requests)|, slaveId, func, address, argument)]
    {
      var toSend := BuildFrame(address, func, argument);
      FrameCarries(msgId, |sent|, slaveId, func, address, argument);
      Send(toSend, Cut(|sent|, slaveId, func, address, argument));
    }

    /** ModbusErrorHandle: true if it throws. A reply with an unknown exception code passes. */
    static predicate Throws(message: seq<Byte>, func: int)
      requires |message| > 8
    {
      message[7] == func + 0x80 && message[8] in {1, 2, 3, 4, 5, 6, 10, 11}
    }

    /** The message buffer: zeros where nothing was received. */
    static function Message(received: seq<Byte>): (message: seq<Byte>)
      requires |received| <= MAX_MSG_LENGTH
      ensures |message| == MAX_MSG_LENGTH && received <= message
      ensures forall i | |received| <= i < |message| :: message[i] == 0
    {
      received + seq(MAX_MSG_LENGTH - |received|, _ => 0)
    }

    // What comes of waiting for a reply: nothing or more than a call can receive, more than the message
    // holds, or a message.

    static predicate Lost(received: Option<seq<Byte>>) {
      received.None? || |received.value| > 1024
    }

    static predicate Exceeds(received: Option<seq<Byte>>) {
      received.Some? && 260 < |received.value| <= 1024
    }

    static predicate Fits(received: Option<seq<Byte>>) {
      received.Some? && |received.value| <= 260
    }

    /** The server refuses the request, for a reason that the client knows. */
    static predicate Refuses(received: Option<seq<Byte>>, func: int) {
      Fits(received) && Throws(Message(received.value), func)
    }

    /** ModbusReadHoldingRegisters and ModbusReadInputRegisters. The reply is what the network returns,
        or None for a failure; one that is longer than the message is received beyond its end. The buffer
        has room for the amount, as the caller is to see to. */
    method ReadRegisters(address: int, amount: int, func: int, received: Option<seq<Byte>>, buffer: array<int>)
      returns (outcome: Outcome)
      requires Valid() && func in {READ_REGS, READ_INPUT_REGS} && amount <= buffer.Length
      modifies this`msgId, this`sent, this`requests, buffer
      ensures Valid()
      ensures outcome == AmountException <==> connected && requests == old(requests)
      ensures outcome == ConnectException <==> !connected || (requests != old(requests) && Lost(received))
      ensures outcome == ServerException <==> requests != old(requests) && Refuses(received, func)
      ensures outcome == Overrun <==> (requests != old(requests) &&
                (Exceeds(received) || (Fits(received) && !Refuses(received, func) && amount > 125)))
      ensures requests == old(requests) +
        if connected && amount <= 65535 && address <= 65535
        then [Cut(|old(requests)|, slaveId, func, address, amount)] else []
      ensures outcome == Done ==> forall i | 0 <= i < amount :: buffer[i] == RegisterAt(Message(received.value), i)
      ensures outcome !in {Done, Overrun} ==> buffer[..] == old(buffer[..])
    {
      if !connected { return ConnectException; }
      if amount > 65535 || address > 65535 { return AmountException; }
      SendRequest(address, func, amount);
      if received.None? || |received.value| > MAX_RECEIVED { return ConnectException; }
      if |received.value| > MAX_MSG_LENGTH { return Overrun; }
      var message := Message(received.value);
      if Throws(message, func) { return ServerException; }
      outcome := DecodeRegisters(message, amount, buffer);
    }

    static method DecodeRegisters(message: seq<Byte>, amount: int, buffer: array<int>) returns (outcome: Outcome)
      requires |message| == MAX_MSG_LENGTH && amount <= buffer.Length
      modifies buffer
      ensures outcome == if amount > 125 then Overrun else Done
      ensures outcome == Done ==> forall i | 0 <= i < amount :: buffer[i] == RegisterAt(message, i)
    {
      var i := 0;
      while i < amount
        invariant 0 <= i <= 125 && (i == 0 || i <= amount)
        invariant forall k | 0 <= k < i :: buffer[k] == RegisterAt(message, k)
      {
        if 10 + 2 * i >= |message| { return Overrun; }
        buffer[i] := Word(message[9 + 2 * i], 0);
        buffer[i] := buffer[i] + message[10 + 2 * i];
        i := i + 1;
      }
      outcome := Done;
    }

    /** ModbusReadCoils and ModbusReadInputBits. */
    method ReadBits(address: int, amount: int, func: int, received: Option<seq<Byte>>, buffer: array<bool>)
      returns (outcome: Outcome)
      requires Valid() && func in {READ_COILS, READ_INPUT_BITS} && amount <= buffer.Length
      modifies this`msgId, this`sent, this`requests, buffer
      ensures Valid()
      ensures outcome == AmountException <==> connected && requests == old(requests)
      ensures outcome == ConnectException <==> !connected || (requests != old(requests) && Lost(received))
      ensures outcome == ServerException <==> requests != old(requests) && Refuses(received, func)
      ensures outcome == Overrun <==> (requests != old(requests) &&
                (Exceeds(received) || (Fits(received) && !Refuses(received, func) && amount > 2008)))
      ensures requests == old(requests) +
        if connected && amount <= 2040 && address <= 65535
        then [Cut(|old(requests)|, slaveId, func, address, amount)] else []
      ensures outcome == Done ==> forall i | 0 <= i < amount :: buffer[i] == BitAt(Message(received.value), i)
      ensures outcome !in {Done, Overrun} ==> buffer[..] == old(buffer[..])
    {
      if !connected { return ConnectException; }
      if amount > 2040 || address > 65535 { return AmountException; }
      SendRequest(address, func, amount);
      if received.None? || |received.value| > MAX_RECEIVED { return ConnectException; }
      if |received.value| > MAX_MSG_LENGTH { return Overrun; }
      var message := Message(received.value);
      if Throws(message, func) { return ServerException; }
      outcome := DecodeBits(message, amount, buffer);
    }

    static method DecodeBits(message: seq<Byte>, amount: int, buffer: array<bool>) returns (outcome: Outcome)
      requires |message| == MAX_MSG_LENGTH && amount <= buffer.Length
      modifies buffer
      ensures outcome == if amount > 2008 then Overrun else Done
      ensures outcome == Done ==> forall i | 0 <= i < amount :: buffer[i] == BitAt(message, i)
    {
      var i := 0;
      while i < amount
        invariant 0 <= i <= 2008 && (i == 0 || i <= amount)
        invariant forall k | 0 <= k < i :: buffer[k] == BitAt(message, k)
      {
        if 9 + i / 8 >= |message| { return Overrun; }
        buffer[i] := BitOf(message[9 + i / 8], i % 8);
        i := i + 1;
      }
      outcome := Done;
    }

    /** The reply carries these registers. */
    static ghost predicate HoldsRegisters(received: seq<Byte>, func: int, values: seq<int>) {
      && |received| <= MAX_MSG_LENGTH && |values| <= 125 && !Throws(Message(received), func)
      && forall i | 0 <= i < |values| :: RegisterAt(Message(received), i) == values[i]
    }

    static ghost predicate HoldsBits(received: seq<Byte>, func: int, bits: seq<bool>) {
      && |received| <= MAX_MSG_LENGTH && |bits| <= 2000 && !Throws(Message(received), func)
      && forall i | 0 <= i < |bits| :: BitAt(Message(received), i) == bits[i]
    }

    /** What a conforming server packs is what the loops decode. */
    static lemma RegisterReply(values: seq<int>, func: Byte, transaction: int, unit: Byte)
      requires |values| <= 125 && func < 0x80 && forall v | v in values :: 0 <= v < 65536
      ensures HoldsRegisters(Reply(transaction, unit, func, PackRegisters(values)), func, values)
    {
      var message := Message(Reply(transaction, unit, func, PackRegisters(values)));
      ReplyCarries(transaction, unit, func, PackRegisters(values), message);
      forall i | 0 <= i < |values| ensures RegisterAt(message, i) == values[i] {
        RegistersDecode(values, message, i);
      }
    }

    static lemma BitReply(bits: seq<bool>, func: Byte, transaction: int, unit: Byte)
      requires |bits| <= 2000 && func < 0x80
      ensures HoldsBits(Reply(transaction, unit, func, PackBits(bits)), func, bits)
    {
      var payload := PackBits(bits);
      var message := Message(Reply(transaction, unit, func, payload));
      ReplyCarries(transaction, unit, func, payload, message);
      AllBitsDecode(bits, payload, message);
    }

    /** An exception reply (section 7 of the MODBUS Application Protocol Specification V1.1b3): the function
        code with its top bit set, and the exception code. */
    static function ExceptionReply(transaction: int, unit: Byte, func: Byte, code: Byte): (reply: seq<Byte>)
      requires func < 0x80
      ensures |reply| == 9
    {
      [High(transaction), Low(transaction), 0, 0, 0, 3, unit, func + 0x80, code]
    }

    /** It is taken as one exactly for the codes of that section; the other codes pass. */
    static lemma ExceptionsThrow(func: Byte, transaction: int, unit: Byte, code: Byte)
      requires func < 0x80
      ensures Refuses(Some(ExceptionReply(transaction, unit, func, code)), func)
        <==> 1 <= code <= 6 || code == 10 || code == 11
    {
      var reply := ExceptionReply(transaction, unit, func, code);
      var message := Message(reply);
      assert message[7] == reply[7] && message[8] == reply[8];
    }

    /** A request that the server refuses: it goes out, the caller gets the exception, and the buffer is as it was. */
    method ReadRegistersRefused(address: int, amount: int, func: Byte, received: seq<Byte>, buffer: array<int>,
        ghost transaction: int, ghost unit: Byte, ghost code: Byte) returns (outcome: Outcome)
      requires Valid() && connected && func in {READ_REGS, READ_INPUT_REGS}
      requires address <= 65535 && amount <= buffer.Length && amount <= 65535
      requires received == ExceptionReply(transaction, unit, func, code) && code in {1, 2, 3, 4, 5, 6, 10, 11}
      modifies this`msgId, this`sent, this`requests, buffer
      ensures Valid() && requests == old(requests) + [Cut(|old(requests)|, slaveId, func, address, amount)]
      ensures outcome == ServerException && buffer[..] == old(buffer[..])
    {
      ExceptionsThrow(func, transaction, unit, code);
      outcome := ReadRegisters(address, amount, func, Some(received), buffer);
    }

    method ReadBitsRefused(address: int, amount: int, func: Byte, received: seq<Byte>, buffer: array<bool>,
        ghost transaction: int, ghost unit: Byte, ghost code: Byte) returns (outcome: Outcome)
      requires Valid() && connected && func in {READ_COILS, READ_INPUT_BITS}
      requires address <= 65535 && amount <= buffer.Length && amount <= 2040
      requires received == ExceptionReply(transaction, unit, func, code) && code in {1, 2, 3, 4, 5, 6, 10, 11}
      modifies this`msgId, this`sent, this`requests, buffer
      ensures Valid() && requests == old(requests) + [Cut(|old(requests)|, slaveId, func, address, amount)]
      ensures outcome == ServerException && buffer[..] == old(buffer[..])
    {
      ExceptionsThrow(func, transaction, unit, code);
      outcome := ReadBits(address, amount, func, Some(received), buffer);
    }

    /** ModbusWriteCoil and ModbusWriteRegister, which both look at the reply as one to the writing of a coil. */
    method WriteSingle(address: int, func: int, value: int, received: Option<seq<Byte>>) returns (outcome: Outcome)
      requires Valid() && func in {WRITE_COIL, WRITE_REG}
      modifies this`msgId, this`sent, this`requests
      ensures Valid()
      ensures outcome == AmountException <==> connected && requests == old(requests)
      ensures outcome == ConnectException <==> !connected || (requests != old(requests) && Lost(received))
      ensures outcome == ServerException <==> requests != old(requests) && Refuses(received, WRITE_COIL)
      ensures outcome == Overrun <==> requests != old(requests) && Exceeds(received)
      ensures requests == old(requests) +
        if connected && address <= 65535 then [Cut(|old(requests)|, slaveId, func, address, value)] else []
    {
      if !connected { return ConnectException; }
      if address > 65535 { return AmountException; }
      SendRequest(address, func, value);
      if received.None? || |received.value| > MAX_RECEIVED { return ConnectException; }
      if |received.value| > MAX_MSG_LENGTH { return Overrun; }
      if Throws(Message(received.value), WRITE_COIL) { return ServerException; }
      outcome := Done;
    }

    /** So the caller learns that the server refused to write a coil, and never that it refused to write a register. */
    static lemma RefusedWrite(func: Byte, transaction: int, unit: Byte, code: Byte)
      requires func in {WRITE_COIL, WRITE_REG}
      ensures var reply := Some(ExceptionReply(transaction, unit, func, code));
              && Fits(reply)
              && (Refuses(reply, WRITE_COIL) <==> func == WRITE_COIL && (1 <= code <= 6 || code == 10 || code == 11))
    {
      var reply := ExceptionReply(transaction, unit, func, code);
      var message := Message(reply);
      assert message[7] == reply[7] && message[8] == reply[8];
    }

    /** A refused write as the caller sees it. */
    method WriteRefused(address: int, func: Byte, value: int, received: seq<Byte>,
        ghost transaction: int, ghost unit: Byte, ghost code: Byte) returns (outcome: Outcome)
      requires Valid() && connected && func in {WRITE_COIL, WRITE_REG} && address <= 65535
      requires received == ExceptionReply(transaction, unit, func, code) && code in {1, 2, 3, 4, 5, 6, 10, 11}
      modifies this`msgId, this`sent, this`requests
      ensures Valid() && requests == old(requests) + [Cut(|old(requests)|, slaveId, func, address, value)]
      ensures outcome == if func == WRITE_COIL then ServerException else Done
    {
      RefusedWrite(func, transaction, unit, code);
      outcome := WriteSingle(address, func, value, Some(received));
    }

    method AskRegisters(address: int, func: int, received: seq<Byte>, ghost values: seq<int>, amount: nat)
      returns (buffer: array<int>)
      requires Valid() && connected && func in {READ_REGS, READ_INPUT_REGS} && address <= 65535
      requires amount == |values| && HoldsRegisters(received, func, values)
      modifies this`msgId, this`sent, this`requests
      ensures Valid() && requests == old(requests) + [Cut(|old(requests)|, slaveId, func, address, amount)]
      ensures buffer[..] == values
    {
      buffer := new int[amount];
      var outcome := ReadRegisters(address, amount, func, Some(received), buffer);
    }

    method AskBits(address: int, func: int, received: seq<Byte>, ghost bits: seq<bool>, amount: nat)
      returns (buffer: array<bool>)
      requires Valid() && connected && func in {READ_COILS, READ_INPUT_BITS} && address <= 65535
      requires amount == |bits| && HoldsBits(received, func, bits)
      modifies this`msgId, this`sent, this`requests
      ensures Valid() && requests == old(requests) + [Cut(|old(requests)|, slaveId, func, address, amount)]
      ensures buffer[..] == bits
    {
      buffer := new bool[amount];
      var outcome := ReadBits(address, amount, func, Some(received), buffer);
    }

    /** A conversation with a conforming server: one request goes out, and what the server packed into
        its reply is what the caller gets. */
    method ReadRegistersFrom(address: int, func: Byte, received: seq<Byte>, amount: nat,
        ghost values: seq<int>, ghost transaction: int, ghost unit: Byte) returns (buffer: array<int>)
      requires Valid() && connected && func in {READ_REGS, READ_INPUT_REGS} && address <= 65535
      requires amount == |values| <= 125 && forall v | v in values :: 0 <= v < 65536
      requires received == Reply(transaction, unit, func, PackRegisters(values))
      modifies this`msgId, this`sent, this`requests
      ensures Valid() && requests == old(requests) + [Cut(|old(requests)|, slaveId, func, address, amount)]
      ensures buffer[..] == values
    {
      RegisterReply(values, func, transaction, unit);
      buffer := AskRegisters(address, func, received, values, amount);
    }

    method ReadBitsFrom(address: int, func: Byte, received: seq<Byte>, amount: nat,
        ghost bits: seq<bool>, ghost transaction: int, ghost unit: Byte) returns (buffer: array<bool>)
      requires Valid() && connected && func in {READ_COILS, READ_INPUT_BITS} && address <= 65535
      requires amount == |bits| <= 2000
      requires received == Reply(transaction, unit, func, PackBits(bits))
      modifies this`msgId, this`sent, this`requests
      ensures Valid() && requests == old(requests) + [Cut(|old(requests)|, slaveId, func, address, amount)]
      ensures buffer[..] == bits
    {
      BitReply(bits, func, transaction, unit);
      buffer := AskBits(address, func, received, bits, amount);
    }
  }
}
