/**
 * A stand-in for the rusb device handle: a fake that records every bulk
 * transfer the host issues and answers from pre-programmed replies, plus the
 * descriptor values the session logic reads.
 */
module Usb {
  import opened Wrappers
  import opened Bytes

  /** The rusb errors a transfer can end with. */
  datatype UsbError = Timeout | Overflow | Pipe | NoDevice | Io

  /** One bulk transfer the host issued, as the device saw it. */
  datatype Transfer =
    | BulkWrite(endpoint: Byte, data: seq<Byte>)
    | BulkRead(endpoint: Byte, length: nat)

  /** The device's answer to the next write. */
  datatype WriteReply = Accepted | WriteFailed(error: UsbError)

  /** The device's answer to the next read: bytes it sends, or an error. */
  datatype ReadReply = Delivered(data: seq<Byte>) | ReadFailed(error: UsbError)

  datatype Direction = In | Out

  /** An endpoint descriptor: bEndpointAddress and bmAttributes. */
  datatype EndpointDescriptor = EndpointDescriptor(address: Byte, attributes: Byte)

  /** Bit 7 of the endpoint address gives the direction (section 9.6.6 of the USB 2.0 specification). */
  function DirectionOf(ep: EndpointDescriptor): Direction
  {
    if ep.address >= 0x80 then In else Out
  }

  datatype DeviceDescriptor = DeviceDescriptor(vendorId: U16, productId: U16)

  /** One entry of a device list: where it sits on the bus, and its descriptor. */
  datatype Device = Device(busNumber: Byte, address: Byte, descriptor: DeviceDescriptor)

  /** `s` without its first `n` elements (empty when it has fewer). */
  function Drop<T>(s: seq<T>, n: nat): (r: seq<T>)
    ensures |r| == if n <= |s| then |s| - n else 0
    ensures forall j :: 0 <= j < |r| ==> r[j] == s[n + j]
  {
    if n <= |s| then s[n..] else []
  }

  /** Dropping `a` elements and then `b` more drops `a + b`. */
  lemma DropDrop<T>(s: seq<T>, a: nat, b: nat)
    ensures Drop(Drop(s, a), b) == Drop(s, a + b)
  {
  }

  /** What a write gets when `replies` are the device's pending answers; none left is a timeout. */
  function WriteOutcome(replies: seq<WriteReply>, data: seq<Byte>): (r: Result<nat, UsbError>)
    ensures r.Ok? <==> replies != [] && replies[0].Accepted?
    ensures r.Ok? ==> r.value == |data|
  {
    if replies == [] then Err(Timeout)
    else
      match replies[0]
      case Accepted => Ok(|data|)
      case WriteFailed(e) => Err(e)
  }

  /**
   * What a read into a buffer of `length` bytes gets: the bytes delivered, or
   * an overflow when the device sends more than the buffer holds.
   */
  function ReadOutcome(replies: seq<ReadReply>, length: nat): (r: Result<seq<Byte>, UsbError>)
    ensures r.Ok? ==> |r.value| <= length
    ensures r.Ok? <==> replies != [] && replies[0].Delivered? && |replies[0].data| <= length
  {
    if replies == [] then Err(Timeout)
    else
      match replies[0]
      case ReadFailed(e) => Err(e)
      case Delivered(d) => if |d| > length then Err(Overflow) else Ok(d)
  }

  class DeviceHandle {
    /** Every bulk transfer issued on this handle, oldest first. */
    var trace: seq<Transfer>
    /** Answers to the coming writes, in order. */
    var writeReplies: seq<WriteReply>
    /** Answers to the coming reads, in order. */
    var readReplies: seq<ReadReply>

    constructor (writeReplies: seq<WriteReply>, readReplies: seq<ReadReply>)
      ensures trace == []
      ensures this.writeReplies == writeReplies && this.readReplies == readReplies
    {
      this.trace := [];
      this.writeReplies := writeReplies;
      this.readReplies := readReplies;
    }

    /** `write_bulk`: sends `data` to `endpoint` and consumes one reply. */
    method WriteBulk(endpoint: Byte, data: seq<Byte>) returns (r: Result<nat, UsbError>)
      modifies this
      ensures trace == old(trace) + [BulkWrite(endpoint, data)]
      ensures r == WriteOutcome(old(writeReplies), data)
      ensures writeReplies == Drop(old(writeReplies), 1)
      ensures readReplies == old(readReplies)
    {
      trace := trace + [BulkWrite(endpoint, data)];
      r := WriteOutcome(writeReplies, data);
      writeReplies := Drop(writeReplies, 1);
    }

    /**
     * `read_bulk`: fills the front of `buf` with the bytes that arrive, leaves
     * the rest of it as it was, and returns how many arrived.
     */
    method ReadBulk(endpoint: Byte, buf: array<Byte>) returns (r: Result<nat, UsbError>)
      modifies this, buf
      ensures trace == old(trace) + [BulkRead(endpoint, buf.Length)]
      ensures readReplies == Drop(old(readReplies), 1)
      ensures writeReplies == old(writeReplies)
      ensures ReadOutcome(old(readReplies), buf.Length).Err? ==>
        r == Err(ReadOutcome(old(readReplies), buf.Length).error) && buf[..] == old(buf[..])
      ensures ReadOutcome(old(readReplies), buf.Length).Ok? ==>
        var d := ReadOutcome(old(readReplies), buf.Length).value;
        r == Ok(|d|) && buf[..] == d + old(buf[|d|..])
    {
      trace := trace + [BulkRead(endpoint, buf.Length)];
      var outcome := ReadOutcome(readReplies, buf.Length);
      readReplies := Drop(readReplies, 1);
      match outcome {
        case Err(e) =>
          r := Err(e);
        case Ok(d) =>
          for i := 0 to |d|
            modifies buf
            invariant buf[..i] == d[..i]
            invariant buf[i..] == old(buf[i..])
          {
            buf[i] := d[i];
          }
          r := Ok(|d|);
      }
    }
  }
}
