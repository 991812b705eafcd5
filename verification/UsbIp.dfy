/** `UsbIpManager`: boot notifications, then moving packets between the queues and the endpoints. */
module UsbIp {
  import opened Wire
  import opened Ring

  const TX_CAPACITY := 8
  const RX_CAPACITY := 4

  datatype BootState = Speed | Notify | Normal

  /** The fields of `UsbIpManager`. */
  datatype Usb = Usb(boot: BootState, current: Packet, handled: bool, txq: seq<Packet>, rxq: seq<Packet>)

  const INIT := Usb(Speed, PacketOf(Zeros(0)), true, [], [])

  /** What the bus does during one `run_loop`: whether a notification is taken, the packet the OUT endpoint
      holds, and whether the IN endpoint takes a write. */
  datatype UsbEnv = UsbEnv(notified: bool, read: Option<Packet>, writable: bool)

  /** One step, with the packets that crossed the bus and those thrown away. */
  datatype UsbMove = UsbMove(next: Usb, read: seq<Packet>, written: seq<Packet>, flushed: seq<Packet>)

  function Receive(u: Usb, read: Option<Packet>): UsbMove
  {
    if |u.rxq| < RX_CAPACITY then
      if read.Some? then UsbMove(u.(rxq := u.rxq + [read.value]), [read.value], [], []) else UsbMove(u, [], [], [])
    else UsbMove(u.(rxq := []), [], [], u.rxq)
  }

  function Transmit(u: Usb, writable: bool): UsbMove
  {
    if u.handled then
      if u.txq == [] then UsbMove(u, [], [], [])
      else UsbMove(u.(current := u.txq[0], handled := false, txq := u.txq[1..]), [], [], [])
    else if writable then UsbMove(u.(handled := true), [], [u.current], [])
    else UsbMove(u, [], [], [])
  }

  function RunLoop(u: Usb, e: UsbEnv): UsbMove
  {
    match u.boot
    case Speed => UsbMove(if e.notified then u.(boot := Notify) else u, [], [], [])
    case Notify => UsbMove(if e.notified then u.(boot := Normal) else u, [], [], [])
    case Normal =>
      var r := Receive(u, e.read);
      var t := Transmit(r.next, e.writable);
      UsbMove(t.next, r.read, t.written, r.flushed)
  }

  /** The packet taken off the queue and not yet accepted by the endpoint. */
  function Pending(u: Usb): seq<Packet>
  {
    if u.handled then [] else [u.current]
  }

  /** Outgoing packets only move from the queue through the pending slot to the endpoint, in order. */
  lemma OutgoingConserved(u: Usb, e: UsbEnv)
    ensures var m := RunLoop(u, e); m.written + Pending(m.next) + m.next.txq == Pending(u) + u.txq
  {
    var m := RunLoop(u, e);
    if u.boot.Normal? && u.handled && u.txq != [] {
      assert u.txq == [u.txq[0]] + u.txq[1..];
    } else {
      assert m.next.txq == u.txq;
      assert m.written + Pending(m.next) == Pending(u);
    }
  }

  /** Incoming packets are queued in order; the queue is thrown away exactly when it is full, and a packet is read
      exactly when the endpoint holds one, boot is over and the queue has room. */
  lemma IncomingConserved(u: Usb, e: UsbEnv)
    ensures var m := RunLoop(u, e);
            && m.flushed + m.next.rxq == u.rxq + m.read
            && (m.flushed != [] <==> u.boot.Normal? && |u.rxq| >= 4)
            && m.read == if u.boot.Normal? && |u.rxq| < 4 && e.read.Some? then [e.read.value] else []
  {}

  /** Boot sends the two notifications in order, one per accepted call; nothing else happens before it ends, and it
      never starts again. */
  lemma BootOrder(u: Usb, e: UsbEnv)
    ensures var m := RunLoop(u, e);
            && (!u.boot.Normal? ==> m.read == m.written == m.flushed == [] && m.next == u.(boot := m.next.boot))
            && m.next.boot == if !e.notified then u.boot else if u.boot.Speed? then Notify else Normal
  {}

  /** What the pump has still to do: a packet in the queue takes two calls, a pending one takes one. */
  function Backlog(u: Usb): nat
  {
    2 * |u.txq| + |Pending(u)|
  }

  /** Every call that finds the endpoint ready brings the backlog one closer to nothing; none lets it grow. */
  lemma PumpProgress(u: Usb, e: UsbEnv)
    requires u.boot.Normal?
    ensures var b := Backlog(RunLoop(u, e).next);
            if e.writable || (u.handled && u.txq != []) then b == (if Backlog(u) == 0 then 0 else Backlog(u) - 1)
            else b == Backlog(u)
  {}

  class UsbIpManager {
    var bootstate: BootState
    var currtxbuf: Packet
    const txq: BoundedQueue<Packet>
    const rxq: BoundedQueue<Packet>
    var msghandled: bool

    ghost predicate Valid()
    {
      txq != rxq && txq.capacity == TX_CAPACITY && rxq.capacity == RX_CAPACITY
    }

    ghost function View(): Usb
      reads this, txq, rxq
    {
      Usb(bootstate, currtxbuf, msghandled, txq.items, rxq.items)
    }

    constructor ()
      ensures Valid() && fresh(txq) && fresh(rxq) && View() == INIT
      ensures txq.capacity == 8 && rxq.capacity == 4
    {
      bootstate := Speed;
      currtxbuf := PacketOf(Zeros(0));
      msghandled := true;
      txq := new BoundedQueue(TX_CAPACITY);
      rxq := new BoundedQueue(RX_CAPACITY);
    }

    method ProcessUsb(read: Option<Packet>, writable: bool) returns (written: seq<Packet>)
      requires Valid()
      modifies rxq, txq, `currtxbuf, `msghandled
      ensures var r := Receive(old(View()), read);
              var t := Transmit(r.next, writable);
              View() == t.next && written == t.written
    {
      written := [];
      if rxq.HasRoom() {
        if read.Some? {
          var pushed := rxq.Push(read.value);
          assert pushed; // the unwrap cannot panic
        }
      } else {
        while rxq.items != []
          modifies rxq
          decreases |rxq.items|
        {
          var _ := rxq.Pop();
        }
      }
      if msghandled {
        var x := txq.Pop();
        if x.Some? {
          currtxbuf := x.value;
          msghandled := false;
        }
      } else if writable {
        written := [currtxbuf];
        msghandled := true;
      }
    }

    method RunLoopOnce(e: UsbEnv) returns (written: seq<Packet>)
      requires Valid()
      modifies rxq, txq, `currtxbuf, `msghandled, `bootstate
      ensures View() == RunLoop(old(View()), e).next && written == RunLoop(old(View()), e).written
    {
      written := [];
      match bootstate
      case Speed => if e.notified { bootstate := Notify; }
      case Notify => if e.notified { bootstate := Normal; }
      case Normal => written := ProcessUsb(e.read, e.writable);
    }
  }
}
