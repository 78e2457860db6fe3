/** The send/acknowledgement correlator of sendNotice, the same code in
    zephyr.cc and src/zephyr.cc: SendFunction, the packet callback handed to
    ZSrvSendNotice, remembers the uid of every packet that went out and wants
    an acknowledgement; sendNotice then returns those uids and empties the
    list. */
module Uids {

  import opened Js
  import opened Notices

  /** One call ZSrvSendNotice makes into SendFunction: what ZSendPacket
      returns for the packet, the waitforack flag, and the notice's uid. */
  datatype Packet = Packet(sendResult: int, waitForAck: bool, uid: Uid)

  /** SendFunction records the uid of this packet. */
  predicate Awaited(p: Packet)
  {
    p.sendResult == ZERR_NONE && p.waitForAck
  }

  /** The uids SendFunction records over a run of packets, in send order. */
  function Recorded(packets: seq<Packet>): (r: seq<Uid>)
    ensures |r| <= |packets|
    ensures forall u :: u in r <==> exists k :: 0 <= k < |packets| && Awaited(packets[k]) && packets[k].uid == u
  {
    if packets == [] then []
    else
      var init := packets[..|packets| - 1];
      var last := packets[|packets| - 1];
      assert forall k :: 0 <= k < |init| ==> init[k] == packets[k];
      Recorded(init) + (if Awaited(last) then [last.uid] else [])
  }

  /** Recording is compositional: the uids of a run are those of its first
      part followed by those of the rest, so send order is kept. */
  lemma {:induction false} RecordedAppend(a: seq<Packet>, b: seq<Packet>)
    ensures Recorded(a + b) == Recorded(a) + Recorded(b)
    decreases |b|
  {
    if b == [] {
      assert a + b == a;
    } else {
      var b' := b[..|b| - 1];
      var last := b[|b| - 1];
      assert (a + b)[..|a + b| - 1] == a + b';
      assert (a + b)[|a + b| - 1] == last;
      RecordedAppend(a, b');
      var tail := if Awaited(last) then [last.uid] else [];
      assert Recorded(a + b) == Recorded(a + b') + tail;
      assert Recorded(b) == Recorded(b') + tail;
    }
  }

  /** A run in which no packet both went out and waits for an
      acknowledgement records nothing. */
  lemma {:induction false} RecordedNone(packets: seq<Packet>)
    requires forall k :: 0 <= k < |packets| ==> !Awaited(packets[k])
    ensures Recorded(packets) == []
    decreases |packets|
  {
    if packets != [] {
      RecordedNone(packets[..|packets| - 1]);
    }
  }

  /** What sendNotice returns: on a failed ZSrvSendNotice an exception carrying
      its code and no uids; otherwise the uids already waiting followed by the
      recorded ones. */
  function SendOutcome(waiting: seq<Uid>, packets: seq<Packet>, ret: int): (r: Completion<seq<Uid>>)
    ensures r.Threw? <==> ret != ZERR_NONE
    ensures r.Threw? ==> r.error == ComErr(ret)
  {
    if ret != ZERR_NONE then Threw(ComErr(ret)) else Returned(waiting + Recorded(packets))
  }

  /** Starting from an empty list, a successful send returns exactly the
      uids of the packets that went out and await acknowledgement, in order. */
  lemma SendOutcomeFromEmpty(packets: seq<Packet>, ret: int)
    requires ret == ZERR_NONE
    ensures SendOutcome([], packets, ret) == Returned(Recorded(packets))
  {
    assert [] + Recorded(packets) == Recorded(packets);
  }

  /** Two fragments, both sent, only the second waiting for an acknowledgement. */
  lemma RecordedExample(u1: Uid, u2: Uid)
    ensures Recorded([Packet(ZERR_NONE, false, u1), Packet(ZERR_NONE, true, u2)]) == [u2]
    ensures Recorded([Packet(ZERR_NONE, true, u1), Packet(1, true, u2)]) == [u1]
  {
    var p := [Packet(ZERR_NONE, false, u1), Packet(ZERR_NONE, true, u2)];
    assert p[..1] == [Packet(ZERR_NONE, false, u1)];
    assert p[..1][..0] == [];
    var q := [Packet(ZERR_NONE, true, u1), Packet(1, true, u2)];
    assert q[..1] == [Packet(ZERR_NONE, true, u1)];
    assert q[..1][..0] == [];
  }

  /** The module-level g_wait_on_uids vector. */
  class UidCorrelator {
    var waitOnUids: seq<Uid>

    constructor ()
      ensures waitOnUids == []
    {
      waitOnUids := [];
    }

    /** SendFunction: pass ZSendPacket's result on, and remember the uid when
        the packet went out and waits for an acknowledgement. */
    method SendFunction(p: Packet) returns (ret: int)
      modifies this
      ensures ret == p.sendResult
      ensures waitOnUids == old(waitOnUids) + (if Awaited(p) then [p.uid] else [])
    {
      ret := p.sendResult;
      if ret == ZERR_NONE && p.waitForAck {
        waitOnUids := waitOnUids + [p.uid];
      }
    }

    /** ZSrvSendNotice as far as the addon sees it: one SendFunction call per
        packet, then the code libzephyr returns, which is given. */
    method SrvSendNotice(packets: seq<Packet>, libRet: int) returns (ret: int)
      modifies this
      ensures ret == libRet
      ensures waitOnUids == old(waitOnUids) + Recorded(packets)
    {
      for i := 0 to |packets|
        invariant waitOnUids == old(waitOnUids) + Recorded(packets[..i])
      {
        assert packets[..i + 1][..i] == packets[..i];
        var _ := SendFunction(packets[i]);
      }
      assert packets[..|packets|] == packets;
      ret := libRet;
    }

    /** The tail of sendNotice: on failure clear the list and throw; on
        success copy the list into the returned array, then clear it. */
    method Finish(ret: int) returns (result: Completion<seq<Uid>>)
      modifies this
      ensures waitOnUids == []
      ensures ret != ZERR_NONE ==> result == Threw(ComErr(ret))
      ensures ret == ZERR_NONE ==> result == Returned(old(waitOnUids))
    {
      if ret != ZERR_NONE {
        waitOnUids := [];
        return Threw(ComErr(ret));
      }
      var uids: seq<Uid> := [];
      for i := 0 to |waitOnUids|
        invariant uids == waitOnUids[..i]
      {
        uids := uids + [waitOnUids[i]];
      }
      assert uids == old(waitOnUids);
      waitOnUids := [];
      result := Returned(uids);
    }

    /** ZSrvSendNotice followed by the tail of sendNotice. */
    method Send(packets: seq<Packet>, libRet: int) returns (result: Completion<seq<Uid>>)
      modifies this
      ensures waitOnUids == []
      ensures result == SendOutcome(old(waitOnUids), packets, libRet)
    {
      var ret := SrvSendNotice(packets, libRet);
      result := Finish(ret);
    }
  }
}
