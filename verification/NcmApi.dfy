/** `NcmApiManager`: the two machines in one object, updating its counters and buffers in place. */
module NcmApi {
  import opened Wire
  import opened Ntb
  import opened Ring
  import opened NcmTx
  import opened NcmRx

  /** Header, table and payload copied one after the other. */
  lemma ThreeCopies(buf: seq<byte>, h: seq<byte>, t: seq<byte>, d: seq<byte>)
    requires |h| == NTH16_SIZE && |t| == TOTAL_HEADER_SIZE - NTH16_SIZE && |buf| == NCM_MAX_SIZE && |d| <= MTU
    ensures Overwrite(Overwrite(Overwrite(buf, 0, h), NTH16_SIZE, t), TOTAL_HEADER_SIZE, d)
            == h + t + d + buf[TOTAL_HEADER_SIZE + |d|..]
  {}

  class NcmApiManager {
    var rxstate: RxState
    var txstate: TxState
    var currheader: Nth16
    var currndp: Ndp16
    var currcnt: nat
    var txtransactioncnt: nat
    var txheader: Nth16
    var txdatagram: Ndp16
    const ncmmsgtxbuf: array<byte>
    const ncmmsgrxbuf: array<byte>
    var usbmsgtotlen: nat
    var currtxdatalen: nat
    var rxbufready: bool

    ghost predicate Valid()
    {
      && ncmmsgtxbuf.Length == NCM_MAX_SIZE
      && ncmmsgrxbuf.Length == NCM_MAX_SIZE
      && ncmmsgtxbuf != ncmmsgrxbuf
    }

    /** The transmit machine this object implements. */
    ghost function TxView(): Tx
      reads this, ncmmsgtxbuf
    {
      Tx(txstate, txtransactioncnt, usbmsgtotlen, currtxdatalen, txheader, txdatagram, ncmmsgtxbuf[..])
    }

    /** The receive machine this object implements. */
    ghost function RxView(): Rx
      reads this, ncmmsgrxbuf
    {
      Rx(rxstate, currheader, currcnt, ncmmsgrxbuf[..], rxbufready)
    }

    constructor ()
      ensures Valid() && fresh(ncmmsgtxbuf) && fresh(ncmmsgrxbuf)
      ensures TxView() == NcmTx.INIT && RxView() == NcmRx.INIT
    {
      rxstate, txstate := AwaitHeader, Ready;
      currheader, currndp := DEFAULT_NTH16, DEFAULT_NDP16;
      currcnt, txtransactioncnt := 0, 0;
      txheader, txdatagram := DEFAULT_NTH16, DEFAULT_NDP16;
      ncmmsgtxbuf := new byte[NCM_MAX_SIZE](_ => 0);
      ncmmsgrxbuf := new byte[NCM_MAX_SIZE](_ => 0);
      usbmsgtotlen, currtxdatalen, rxbufready := 0, 0, false;
      new;
      assert ncmmsgtxbuf[..] == Zeros(NCM_MAX_SIZE) && ncmmsgrxbuf[..] == Zeros(NCM_MAX_SIZE);
    }

    // ----- transmit

    /** Lay down header, table and payload one after the other. */
    method CopyBlock(headervec: seq<byte>, datagramvec: seq<byte>, payload: seq<byte>)
      requires Valid()
      requires |headervec| == NTH16_SIZE && |datagramvec| == TOTAL_HEADER_SIZE - NTH16_SIZE && |payload| <= MTU
      modifies ncmmsgtxbuf
      ensures ncmmsgtxbuf[..]
           == headervec + datagramvec + payload + old(ncmmsgtxbuf[..])[TOTAL_HEADER_SIZE + |payload|..]
    {
      CopyInto(ncmmsgtxbuf, 0, headervec);
      CopyInto(ncmmsgtxbuf, NTH16_SIZE, datagramvec);
      CopyInto(ncmmsgtxbuf, TOTAL_HEADER_SIZE, payload);
      ThreeCopies(old(ncmmsgtxbuf[..]), headervec, datagramvec, payload);
    }

    /** The body of `Ready` once a frame is there: build its block in the transmit buffer. */
    method BuildBlock(msg: EthMsg)
      requires Valid() && Load(TxView(), msg).Done?
      modifies ncmmsgtxbuf, `txstate, `usbmsgtotlen, `currtxdatalen, `txheader, `txdatagram
      ensures TxView() == Load(old(TxView()), msg).value
    {
      hide NthBytes, NdpBytes, EntryBytes;
      currtxdatalen := msg.len;
      var entries := txdatagram.datagrams + [Datagram(TOTAL_HEADER_SIZE, msg.len)] + [Datagram(0, 0)];
      assert entries == txdatagram.datagrams + [Datagram(TOTAL_HEADER_SIZE, msg.len), Datagram(0, 0)];
      txdatagram := txdatagram.(datagrams := entries);
      usbmsgtotlen := TOTAL_HEADER_SIZE + msg.len;
      txheader := txheader.(blocklen := usbmsgtotlen);
      var headervec := ConvNthToBytes(txheader);
      txheader := txheader.(sequence := (txheader.sequence + 1) % 0x1_0000);
      var datagramvec := ConvNdpToBytes(txdatagram);
      CopyBlock(headervec, datagramvec, msg.buf[..msg.len]);
      txstate := if usbmsgtotlen <= EP_DATA_BUF_SIZE then Header else Sending;
    }

    /** `Ready`: take a frame, if there is one, and build its block. */
    method TakeFrame(txq: BoundedQueue<EthMsg>)
      requires Valid() && txstate == Ready
      requires Step(TxView(), Head(txq.items), false).Done?
      modifies txq, ncmmsgtxbuf
      modifies `txstate, `usbmsgtotlen, `currtxdatalen, `txheader, `txdatagram
      ensures var m := Step(old(TxView()), Head(old(txq.items)), false).value;
              TxView() == m.next && txq.items == old(txq.items)[|m.popped|..]
    {
      hide Load;
      var popped := txq.Pop();
      if popped.Some? {
        BuildBlock(popped.value);
      }
    }

    /** `Header`: send only the two headers of a short block. */
    method SendHeader(usbtxring: BoundedQueue<Packet>)
      requires Valid() && txstate == Header
      modifies usbtxring, `txstate, `txtransactioncnt
      ensures Step(old(TxView()), None, old(usbtxring.HasRoom())).Done?
      ensures var m := Step(old(TxView()), None, old(usbtxring.HasRoom())).value;
              TxView() == m.next && usbtxring.items == old(usbtxring.items) + m.pushed
    {
      var ok := usbtxring.Push(PacketOf(ncmmsgtxbuf[..TOTAL_HEADER_SIZE]));
      if ok {
        if usbmsgtotlen == TOTAL_HEADER_SIZE {
          txstate := Ready;
        } else {
          txtransactioncnt := txtransactioncnt + TOTAL_HEADER_SIZE;
          txstate := Sending;
        }
      }
    }

    /** `Sending`: send the next chunk of at most 64 bytes. */
    method SendChunk(usbtxring: BoundedQueue<Packet>)
      requires Valid() && txstate == Sending
      requires Step(TxView(), None, usbtxring.HasRoom()).Done?
      modifies usbtxring, `txstate, `txtransactioncnt
      ensures var m := Step(old(TxView()), None, old(usbtxring.HasRoom())).value;
              TxView() == m.next && usbtxring.items == old(usbtxring.items) + m.pushed
    {
      var bytestocopy := Min(usbmsgtotlen - txtransactioncnt, EP_DATA_BUF_SIZE);
      var ok := usbtxring.Push(PacketOf(ncmmsgtxbuf[txtransactioncnt..txtransactioncnt + bytestocopy]));
      if ok {
        txtransactioncnt := txtransactioncnt + bytestocopy;
        if txtransactioncnt == usbmsgtotlen {
          txstate := Zlp;
        } else {
          assert txtransactioncnt < usbmsgtotlen; // "sent too many bytes" cannot be reached
        }
      }
    }

    /** `Zlp`: end the frame, after a zero-length packet if its length calls for one. */
    method EndFrame(usbtxring: BoundedQueue<Packet>)
      requires Valid() && txstate == Zlp
      modifies usbtxring, `txstate, `txtransactioncnt, `txdatagram
      ensures Step(old(TxView()), None, old(usbtxring.HasRoom())).Done?
      ensures var m := Step(old(TxView()), None, old(usbtxring.HasRoom())).value;
              TxView() == m.next && usbtxring.items == old(usbtxring.items) + m.pushed
    {
      if currtxdatalen % EP_DATA_BUF_SIZE == 0 {
        var ok := usbtxring.Push(PacketOf([]));
        if ok {
          txdatagram := txdatagram.(datagrams := []);
          txstate := Ready;
          txtransactioncnt := 0;
        }
      } else {
        txdatagram := txdatagram.(datagrams := []);
        txstate := Ready;
        txtransactioncnt := 0;
      }
    }

    /** The transmit half of `process_messages`: one step of the transmit machine. */
    method TxHandling(txq: BoundedQueue<EthMsg>, usbtxring: BoundedQueue<Packet>)
      requires Valid()
      requires Step(TxView(), Head(txq.items), usbtxring.HasRoom()).Done?
      modifies txq, usbtxring, ncmmsgtxbuf
      modifies `txstate, `usbmsgtotlen, `currtxdatalen, `txheader, `txdatagram, `txtransactioncnt
      ensures var m := Step(old(TxView()), Head(old(txq.items)), old(usbtxring.HasRoom())).value;
              && TxView() == m.next
              && txq.items == old(txq.items)[|m.popped|..]
              && usbtxring.items == old(usbtxring.items) + m.pushed
    {
      match txstate
      case Ready => TakeFrame(txq);
      case Header => SendHeader(usbtxring);
      case Sending => SendChunk(usbtxring);
      case Zlp => EndFrame(usbtxring);
    }

    // ----- receive

    method RestartRx()
      modifies `rxstate, `currcnt
      ensures rxstate == AwaitHeader && currcnt == 0
    {
      rxstate := AwaitHeader;
      currcnt := 0;
    }

    /** One turn of the drain loop. */
    method ReceivePacket(p: Packet)
      requires Valid() && Feed(RxView(), p).Done?
      modifies ncmmsgrxbuf, `rxstate, `currheader, `currcnt, `rxbufready
      ensures RxView() == Feed(old(RxView()), p).value
    {
      match rxstate
      case AwaitHeader =>
        if p.len >= NTH16_SIZE {
          match ParseNth16(p.buf[..p.len])
          case InvalidSignature =>
          case ParsePanic => assert false;
          case Parsed(h) =>
            currheader := h;
            CopyInto(ncmmsgrxbuf, 0, p.buf[..p.len]);
            currcnt := currcnt + p.len;
            rxstate := CopyEntireMsg;
        }
      case CopyEntireMsg =>
        var copysize := Min(currheader.blocklen - currcnt, p.len);
        CopyInto(ncmmsgrxbuf, currcnt, p.buf[..copysize]);
        currcnt := currcnt + copysize;
        if currcnt == currheader.blocklen {
          RestartRx();
          rxbufready := true;
        }
    }

    /** The drain loop: every queued packet, in order. */
    method DrainRing(usbrxring: BoundedQueue<Packet>)
      requires Valid() && Drain(RxView(), usbrxring.items).Done?
      modifies usbrxring, ncmmsgrxbuf, `rxstate, `currheader, `currcnt, `rxbufready
      ensures RxView() == Drain(old(RxView()), old(usbrxring.items)).value
      ensures usbrxring.items == []
    {
      while usbrxring.items != []
        invariant Drain(RxView(), usbrxring.items) == Drain(old(RxView()), old(usbrxring.items))
        decreases |usbrxring.items|
      {
        var p := usbrxring.Pop();
        ReceivePacket(p.value);
      }
    }

    method ProcessNdp()
      requires Valid() && currheader.ndpindex <= ncmmsgrxbuf.Length
      requires ParseNdp16(ncmmsgrxbuf[currheader.ndpindex..]).Parsed?
      modifies `currndp
      ensures ParseNdp16(ncmmsgrxbuf[currheader.ndpindex..]) == Parsed(currndp)
    {
      currndp := ParseNdp16(ncmmsgrxbuf[currheader.ndpindex..]).value;
    }

    /** The walk over the decoded table. */
    method PushDatagrams(rxq: BoundedQueue<EthMsg>)
      requires Valid() && Deliveries(ncmmsgrxbuf[..], currndp.datagrams).Done?
      modifies rxq
      ensures rxq.items
           == PushAll(old(rxq.items), rxq.capacity, Deliveries(ncmmsgrxbuf[..], currndp.datagrams).value)
    {
      var ds := currndp.datagrams;
      for i := 0 to |ds|
        invariant Deliveries(ncmmsgrxbuf[..], ds[i..]).Done?
        invariant PushAll(rxq.items, rxq.capacity, Deliveries(ncmmsgrxbuf[..], ds[i..]).value)
               == PushAll(old(rxq.items), rxq.capacity, Deliveries(ncmmsgrxbuf[..], ds).value)
      {
        var d := ds[i];
        assert ds[i..][0] == d && ds[i..][1..] == ds[i + 1..];
        if d.length != 0 {
          var _ := rxq.Push(EthOf(ncmmsgrxbuf[d.index..d.index + d.length]));
        }
      }
    }

    /** Decode a completed block and queue its datagrams; those that find the queue full are dropped. */
    method DeliverBlock(rxq: BoundedQueue<EthMsg>)
      requires Valid() && rxbufready && Decode(RxView()).Done?
      modifies rxq, `currndp, `rxbufready
      ensures RxView() == old(RxView()).(ready := false)
      ensures rxq.items == PushAll(old(rxq.items), rxq.capacity, Decode(old(RxView())).value.frames)
    {
      ProcessNdp();
      PushDatagrams(rxq);
      rxbufready := false;
    }

    /** The receive half of `process_messages`. */
    method RxHandling(rxq: BoundedQueue<EthMsg>, usbrxring: BoundedQueue<Packet>)
      requires Valid() && Turn(RxView(), usbrxring.items).Done?
      modifies rxq, usbrxring, ncmmsgrxbuf, `rxstate, `currheader, `currndp, `currcnt, `rxbufready
      ensures var t := Turn(old(RxView()), old(usbrxring.items)).value;
              && RxView() == t.next
              && rxq.items == PushAll(old(rxq.items), rxq.capacity, t.frames)
      ensures usbrxring.items == []
    {
      DrainRing(usbrxring);
      if rxbufready {
        DeliverBlock(rxq);
      }
    }

    /** `process_messages`: one transmit step, then drain and decode. */
    method ProcessMessages(rxq: BoundedQueue<EthMsg>, txq: BoundedQueue<EthMsg>,
                           usbrxring: BoundedQueue<Packet>, usbtxring: BoundedQueue<Packet>)
      requires Valid() && rxq != txq && usbrxring != usbtxring
      requires Step(TxView(), Head(txq.items), usbtxring.HasRoom()).Done?
      requires Turn(RxView(), usbrxring.items).Done?
      modifies this, ncmmsgtxbuf, ncmmsgrxbuf, rxq, txq, usbrxring, usbtxring
      ensures var m := Step(old(TxView()), Head(old(txq.items)), old(usbtxring.HasRoom())).value;
              && TxView() == m.next
              && txq.items == old(txq.items)[|m.popped|..]
              && usbtxring.items == old(usbtxring.items) + m.pushed
      ensures var t := Turn(old(RxView()), old(usbrxring.items)).value;
              && RxView() == t.next
              && rxq.items == PushAll(old(rxq.items), rxq.capacity, t.frames)
      ensures usbrxring.items == []
    {
      TxHandling(txq, usbtxring);
      RxHandling(rxq, usbrxring);
    }
  }
}
