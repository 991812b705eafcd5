/** The objects of `main` wired together, and one turn of its loop. */
module Firmware {
  import opened Wire
  import opened Ring
  import MainLoop
  import NcmApi
  import NcmTx
  import NcmRx
  import UsbIp
  import Server
  import Dhcp
  import DhcpCodec
  import Servers

  class Firmware {
    const usb: UsbIp.UsbIpManager
    const ncm: NcmApi.NcmApiManager
    const ethRx: BoundedQueue<EthMsg>
    const ethTx: BoundedQueue<EthMsg>
    const web: Server.TcpServer
    const dhcp: Dhcp.DhcpServer
    var queued: nat // replies in the DHCP socket

    ghost predicate Valid()
    {
      && usb.Valid() && ncm.Valid()
      && ethRx != ethTx
      && ethRx.capacity == ethTx.capacity == MainLoop.ETH_CAPACITY
    }

    ghost function View(): MainLoop.Sys
      reads usb, usb.txq, usb.rxq, ncm, ncm.ncmmsgtxbuf, ncm.ncmmsgrxbuf, ethRx, ethTx
    {
      MainLoop.Sys(usb.View(), ncm.TxView(), ncm.RxView(), ethRx.items, ethTx.items)
    }

    /** The servers `eth_task` calls. */
    ghost function AppView(): Servers.App
      reads this, web, dhcp
    {
      Servers.App(web.View(), Servers.DhcpTask(dhcp.View(), queued))
    }

    constructor (addrstart: byte, maxaddr: byte, serverip: DhcpCodec.Ipv4, subnet: DhcpCodec.Ipv4)
      ensures Valid() && View() == MainLoop.INIT.sys
      ensures AppView() == Servers.AppInit(Dhcp.Server(addrstart, maxaddr, 0, serverip, subnet, []))
      ensures fresh(usb) && fresh(usb.txq) && fresh(usb.rxq)
      ensures fresh(ncm) && fresh(ncm.ncmmsgtxbuf) && fresh(ncm.ncmmsgrxbuf)
      ensures fresh(ethRx) && fresh(ethTx) && fresh(web) && fresh(dhcp)
    {
      usb := new UsbIp.UsbIpManager();
      ncm := new NcmApi.NcmApiManager();
      ethRx := new BoundedQueue(MainLoop.ETH_CAPACITY);
      ethTx := new BoundedQueue(MainLoop.ETH_CAPACITY);
      web := new Server.TcpServer();
      dhcp := new Dhcp.DhcpServer(addrstart, maxaddr, serverip, subnet);
      queued := 0;
    }

    /** The network stack's turn: it takes frames from one queue and puts frames on the other, losing those that
        find it full. */
    method NetworkTurn(taken: nat, sent: seq<EthMsg>)
      requires Valid()
      modifies ethRx, ethTx
      ensures ethRx.items == old(ethRx.items)[Min(taken, |old(ethRx.items)|)..]
      ensures ethTx.items == PushAll(old(ethTx.items), MainLoop.ETH_CAPACITY, sent)
    {
      var n := 0;
      while n < taken && ethRx.items != []
        invariant n <= taken && n <= |old(ethRx.items)|
        invariant ethRx.items == old(ethRx.items)[n..]
        invariant ethTx.items == old(ethTx.items)
      {
        var _ := ethRx.Pop();
        n := n + 1;
      }
      for i := 0 to |sent|
        invariant ethRx.items == old(ethRx.items)[Min(taken, |old(ethRx.items)|)..]
        invariant PushAll(ethTx.items, MainLoop.ETH_CAPACITY, sent[i..])
               == PushAll(old(ethTx.items), MainLoop.ETH_CAPACITY, sent)
      {
        assert sent[i..][1..] == sent[i + 1..];
        var _ := ethTx.Push(sent[i]);
      }
    }

    /** `run_dhcpserver`. */
    method RunDhcpServer(x: Servers.DhcpInput)
      requires Servers.RunDhcpServer(AppView().dhcp, x).Done?
      modifies this`queued, dhcp
      ensures AppView().dhcp == Servers.RunDhcpServer(old(AppView().dhcp), x).value.next
    {
      hide Dhcp.Recv;
      queued := if x.dispatched <= queued then queued - x.dispatched else 0;
      match x.datagram
      case None =>
      case Some(buf) =>
        var reply := dhcp.Receive(buf);
        if reply.Some? {
          assert (queued + 1) * DhcpCodec.MSG_LEN <= Servers.UDP_BUFSIZE; // the unwrapped send_slice cannot fail
          queued := queued + 1;
        }
    }

    /** `eth_task`: the network stack, the web server, the DHCP server. */
    method EthTask(i: Servers.Input)
      requires Valid() && Servers.Turn(AppView(), i.app).Done?
      modifies ethRx, ethTx, web, dhcp, this`queued
      ensures ethRx.items == old(ethRx.items)[Min(i.turn.taken, |old(ethRx.items)|)..]
      ensures ethTx.items == PushAll(old(ethTx.items), MainLoop.ETH_CAPACITY, i.turn.sent)
      ensures AppView() == Servers.Turn(old(AppView()), i.app).value.next
    {
      hide Server.Step, Servers.RunDhcpServer;
      NetworkTurn(i.turn.taken, i.turn.sent);
      var _, _ := web.RunWebserver(i.app.poll);
      RunDhcpServer(i.app.dhcp);
    }

    /** One turn of the loop, in the order of `main`. */
    method Iteration(i: Servers.Input, ghost log: MainLoop.Log) returns (written: seq<Packet>)
      requires Valid() && Servers.Turn(AppView(), i.app).Done?
      requires MainLoop.Iterate(MainLoop.World(View(), log), MainLoop.Env(i.usb, Done(i.turn))).Done?
      modifies usb, usb.txq, usb.rxq, ncm, ncm.ncmmsgtxbuf, ncm.ncmmsgrxbuf, ethRx, ethTx, web, dhcp, this`queued
      ensures var w := MainLoop.Iterate(MainLoop.World(old(View()), log), MainLoop.Env(i.usb, Done(i.turn))).value;
              View() == w.sys && w.log.written == log.written + written
      ensures AppView() == Servers.Turn(old(AppView()), i.app).value.next
    {
      hide NcmTx.Step, NcmRx.Turn, UsbIp.RunLoop, PushAll, Servers.Turn;
      ghost var w := MainLoop.World(View(), log);
      ghost var um := UsbIp.RunLoop(w.sys.usb, i.usb);
      ghost var x := MainLoop.Offered(w.sys, um);
      written := usb.RunLoopOnce(i.usb);
      assert usb.txq.HasRoom() == x.room;
      ncm.ProcessMessages(ethRx, ethTx, usb.rxq, usb.txq);
      EthTask(i);
    }
  }

  /** `main` for as many turns as there are entries in `ins`: the objects are created and looped, and at the end hold
      the state, and have written the packets, of the model's run, servers included. */
  method RunMain(addrstart: byte, maxaddr: byte, serverip: DhcpCodec.Ipv4, subnet: DhcpCodec.Ipv4,
                 ins: seq<Servers.Input>)
    returns (firmware: Firmware, written: seq<Packet>)
    requires MainLoop.Run(Servers.Envs(Dhcp.Server(addrstart, maxaddr, 0, serverip, subnet, []), ins)).Done?
    ensures firmware.Valid() && fresh(firmware)
    ensures var dhcp := Dhcp.Server(addrstart, maxaddr, 0, serverip, subnet, []);
            var w, a := MainLoop.Run(Servers.Envs(dhcp, ins)), Servers.AppRun(dhcp, Servers.Apps(ins));
            && firmware.View() == w.value.sys && written == w.value.log.written
            && a == Done(firmware.AppView())
  {
    hide MainLoop.Iterate, Servers.Turn, Servers.AppRun, MainLoop.Run, Servers.Envs, Servers.Apps;
    ghost var dhcp := Dhcp.Server(addrstart, maxaddr, 0, serverip, subnet, []);
    firmware := new Firmware(addrstart, maxaddr, serverip, subnet);
    written := [];
    Servers.NoIteration(dhcp, ins[..0]);
    for k := 0 to |ins|
      invariant MainLoop.Run(Servers.Envs(dhcp, ins[..k])).Done?
      invariant firmware.Valid() && fresh(firmware)
      invariant fresh(firmware.usb) && fresh(firmware.usb.txq) && fresh(firmware.usb.rxq)
      invariant fresh(firmware.ncm) && fresh(firmware.ncm.ncmmsgtxbuf) && fresh(firmware.ncm.ncmmsgrxbuf)
      invariant fresh(firmware.ethRx) && fresh(firmware.ethTx) && fresh(firmware.web) && fresh(firmware.dhcp)
      invariant firmware.View() == MainLoop.Run(Servers.Envs(dhcp, ins[..k])).value.sys
      invariant Servers.AppRun(dhcp, Servers.Apps(ins[..k])) == Done(firmware.AppView())
      invariant written == MainLoop.Run(Servers.Envs(dhcp, ins[..k])).value.log.written
    {
      Servers.NextIteration(dhcp, ins, k);
      var more := firmware.Iteration(ins[k], MainLoop.Run(Servers.Envs(dhcp, ins[..k])).value.log);
      written := written + more;
    }
    assert ins[..|ins|] == ins;
  }
}
