/** The messages that cross the two channels of a capture pipeline, and the
    channels themselves. Commands travel from the consumer handle to the
    capture worker as (name, payload) text pairs; events travel back as
    (tag, frame) pairs. A channel is an unbounded FIFO queue shared by its
    single sender and its single receiver. */
module Protocol {
  import opened Basics

  type byte = bv8

  /** A frame: tightly packed RGBA8 bytes, row-major, and its dimensions. */
  datatype Frame = Frame(data: seq<byte>, width: u32, height: u32)

  /** The empty 0x0 frame that stands for "no frame". */
  const EmptyFrame: Frame := Frame([], 0, 0)

  /** Four bytes per pixel and no row padding. */
  ghost predicate WellSized(f: Frame) {
    |f.data| == f.width * f.height * 4
  }

  datatype Command = Command(name: string, value: string)

  datatype Event = Event(tag: string, frame: Frame)

  /** The event the worker sends when the capture ends. */
  const ClosedEvent: Event := Event("closed", EmptyFrame)

  /** The event that delivers one frame. */
  function FrameEvent(f: Frame): Event {
    Event("frame", f)
  }

  /** One direction of an `mpsc` channel: what has been sent and not yet
      received, oldest first. */
  class Channel<T> {
    var items: seq<T>

    constructor ()
      ensures items == []
    {
      items := [];
    }

    /** `Sender::send`: appends at the back. */
    method Send(x: T)
      modifies this
      ensures items == old(items) + [x]
    {
      items := items + [x];
    }

    /** `Receiver::try_recv`: takes the oldest message, or reports that the
        channel is empty without waiting. */
    method TryRecv() returns (r: Option<T>)
      modifies this
      ensures old(items) == [] ==> r == None && items == []
      ensures old(items) != [] ==> r == Some(old(items)[0]) && items == old(items)[1..]
    {
      if items == [] {
        r := None;
      } else {
        r := Some(items[0]);
        items := items[1..];
      }
    }
  }
}
