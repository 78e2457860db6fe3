/** The readiness drain loop, OnZephyrFDReady (the same code in zephyr.cc and
    src/zephyr.cc): on each readiness notification, receive and deliver
    notices while ZPending reports some, and stop at the first error. */
module Listener {

  import opened Js
  import opened Notices

  /** What one ZReceiveNotice call yields: its return code, the notice
      (meaningful only when the code is ZERR_NONE) and what gethostbyaddr
      then finds for the sender. */
  datatype Receive = Receive(ret: int, notice: ZNotice, hostName: Option<string>)

  /** One round of the transport script: ZPending's result together with the
      errno it leaves, and the receive that follows a positive count. */
  datatype Poll = Poll(pending: int, errno: int, receive: Receive)

  /** What the loop does that the caller can observe, in order. */
  datatype Action =
    | CallbackMessage(msg: Message)   // callback(null, msg)
    | CallbackError(error: JsError)   // CallWithError(callback, code)
    | NoticeFreed                     // ZFreeNotice

  /** Every notice a successful receive hands out is well formed. */
  predicate WellScripted(polls: seq<Poll>)
  {
    forall k :: 0 <= k < |polls| && polls[k].pending > 0 && polls[k].receive.ret == ZERR_NONE ==>
      WellFormed(polls[k].receive.notice)
  }

  /** ZPending in round k: past the end of the script nothing is pending. */
  function PendingAt(polls: seq<Poll>, k: nat): int
  {
    if k < |polls| then polls[k].pending else 0
  }

  /** Round k delivers a message and the loop goes on. */
  predicate Delivers(polls: seq<Poll>, k: nat)
  {
    PendingAt(polls, k) > 0 && polls[k].receive.ret == ZERR_NONE
  }

  /** The number of rounds from k on that deliver a message before the loop stops. */
  function DeliveredFrom(polls: seq<Poll>, k: nat): (n: nat)
    ensures forall i :: k <= i < k + n ==> Delivers(polls, i)
    ensures !Delivers(polls, k + n)
    decreases |polls| - k
  {
    if Delivers(polls, k) then 1 + DeliveredFrom(polls, k + 1) else 0
  }

  /** The message delivered in a round that delivers one. */
  function MessageOf(polls: seq<Poll>, i: nat): Message
    requires WellScripted(polls) && Delivers(polls, i)
  {
    Decode(polls[i].receive.notice, polls[i].receive.hostName)
  }

  /** The messages of the first n rounds, each followed by the freeing of its notice. */
  function Deliveries(polls: seq<Poll>, n: nat): (r: seq<Action>)
    requires WellScripted(polls)
    requires forall i :: 0 <= i < n ==> Delivers(polls, i)
    ensures |r| == 2 * n
    ensures forall a :: a in r ==> !a.CallbackError?
  {
    if n == 0 then [] else Deliveries(polls, n - 1) + [CallbackMessage(MessageOf(polls, n - 1)), NoticeFreed]
  }

  /** How the loop ends in a round that does not deliver: silently on a zero
      count, with one error on a negative count (carrying errno) or on a
      failed receive (carrying its code). */
  function Stop(polls: seq<Poll>, j: nat): (r: seq<Action>)
    requires !Delivers(polls, j)
    ensures |r| <= 1 && forall a :: a in r ==> a.CallbackError?
    ensures r == [] <==> PendingAt(polls, j) == 0
  {
    if PendingAt(polls, j) < 0 then [CallbackError(ComErr(polls[j].errno))]
    else if PendingAt(polls, j) == 0 then []
    else [CallbackError(ComErr(polls[j].receive.ret))]
  }

  /** What one readiness cycle does: deliver every message of the leading run
      of successful rounds, in receive order, then end as Stop says. */
  function Drain(polls: seq<Poll>): (r: seq<Action>)
    requires WellScripted(polls)
    ensures 2 * DeliveredFrom(polls, 0) <= |r| <= 2 * DeliveredFrom(polls, 0) + 1
    ensures (forall a :: a in r ==> !a.CallbackError?) <==> PendingAt(polls, DeliveredFrom(polls, 0)) == 0
  {
    var n := DeliveredFrom(polls, 0);
    var stop := Stop(polls, n);
    assert stop != [] ==> (Deliveries(polls, n) + stop)[2 * n] == stop[0];
    Deliveries(polls, n) + stop
  }

  /** The leading run of delivering rounds is the one the loop walked. */
  lemma {:induction false} DeliveredFromIs(polls: seq<Poll>, k: nat, n: nat)
    requires k <= n
    requires forall i :: k <= i < n ==> Delivers(polls, i)
    requires !Delivers(polls, n)
    ensures DeliveredFrom(polls, k) == n - k
    decreases n - k
  {
    if k < n {
      DeliveredFromIs(polls, k + 1, n);
    }
  }

  /** Deliveries alternate: message i, then the freeing of that notice. */
  lemma {:induction false} DeliveriesAlternate(polls: seq<Poll>, n: nat)
    requires WellScripted(polls)
    requires forall i :: 0 <= i < n ==> Delivers(polls, i)
    ensures |Deliveries(polls, n)| == 2 * n
    ensures forall i :: 0 <= i < n ==>
      Deliveries(polls, n)[2 * i] == CallbackMessage(MessageOf(polls, i)) &&
      Deliveries(polls, n)[2 * i + 1] == NoticeFreed
    ensures forall a :: a in Deliveries(polls, n) ==> !a.CallbackError?
  {
    if n > 0 {
      DeliveriesAlternate(polls, n - 1);
      var d := Deliveries(polls, n);
      var init := Deliveries(polls, n - 1);
      forall i | 0 <= i < n
        ensures d[2 * i] == CallbackMessage(MessageOf(polls, i)) && d[2 * i + 1] == NoticeFreed
      {
        if i < n - 1 {
          assert d[2 * i] == init[2 * i];
          assert d[2 * i + 1] == init[2 * i + 1];
        }
      }
    }
  }

  /** The observable contract of one readiness cycle: the first n actions
      pair each delivered message, in receive order, with the freeing of its
      notice; at most one error follows, and only when the loop stopped on a
      negative count or a failed receive; no message is delivered for the
      round that stops the loop. */
  lemma DrainContract(polls: seq<Poll>)
    requires WellScripted(polls)
    ensures var n := DeliveredFrom(polls, 0);
            var t := Drain(polls);
            && |t| == 2 * n + (if PendingAt(polls, n) == 0 then 0 else 1)
            && (forall i :: 0 <= i < n ==> t[2 * i] == CallbackMessage(MessageOf(polls, i)) && t[2 * i + 1] == NoticeFreed)
            && (PendingAt(polls, n) < 0 ==> t[|t| - 1] == CallbackError(ComErr(polls[n].errno)))
            && (PendingAt(polls, n) > 0 ==> t[|t| - 1] == CallbackError(ComErr(polls[n].receive.ret)))
            && (forall j :: 0 <= j < |t| && t[j].CallbackError? ==> j == |t| - 1)
  {
    var n := DeliveredFrom(polls, 0);
    DeliveriesAlternate(polls, n);
    DrainMessages(polls, n, Deliveries(polls, n), Stop(polls, n));
    DrainEnd(polls, n, Deliveries(polls, n), Stop(polls, n));
  }

  /** The message part of a trace made of n deliveries and a stop. */
  lemma DrainMessages(polls: seq<Poll>, n: nat, d: seq<Action>, s: seq<Action>)
    requires WellScripted(polls)
    requires forall i :: 0 <= i < n ==> Delivers(polls, i)
    requires |d| == 2 * n
    requires forall i :: 0 <= i < n ==> d[2 * i] == CallbackMessage(MessageOf(polls, i)) && d[2 * i + 1] == NoticeFreed
    ensures forall i :: 0 <= i < n ==> (d + s)[2 * i] == CallbackMessage(MessageOf(polls, i)) && (d + s)[2 * i + 1] == NoticeFreed
  {
  }

  /** The end of a trace made of deliveries, which hold no error, and the stop
      of round n. */
  lemma DrainEnd(polls: seq<Poll>, n: nat, d: seq<Action>, s: seq<Action>)
    requires !Delivers(polls, n) && s == Stop(polls, n)
    requires forall a :: a in d ==> !a.CallbackError?
    ensures |d + s| == |d| + (if PendingAt(polls, n) == 0 then 0 else 1)
    ensures PendingAt(polls, n) < 0 ==> (d + s)[|d + s| - 1] == CallbackError(ComErr(polls[n].errno))
    ensures PendingAt(polls, n) > 0 ==> (d + s)[|d + s| - 1] == CallbackError(ComErr(polls[n].receive.ret))
    ensures forall j :: 0 <= j < |d + s| && (d + s)[j].CallbackError? ==> j == |d + s| - 1
  {
    var t := d + s;
    forall j | 0 <= j < |t| && t[j].CallbackError?
      ensures j == |t| - 1
    {
      if j >= |d| {
        assert t[j] in s;
      }
    }
  }

  /** Pending counts 3, 2, 1, 0 with successful receives: exactly three
      message callbacks, in receive order, each followed by ZFreeNotice, and
      nothing else. */
  lemma DrainThreeNotices(polls: seq<Poll>)
    requires |polls| == 4
    requires polls[0].pending == 3 && polls[1].pending == 2 && polls[2].pending == 1 && polls[3].pending == 0
    requires forall k :: 0 <= k < 3 ==> polls[k].receive.ret == ZERR_NONE && WellFormed(polls[k].receive.notice)
    ensures WellScripted(polls) && DeliveredFrom(polls, 0) == 3
    ensures |Drain(polls)| == 6
    ensures forall i :: 0 <= i < 3 ==>
      Drain(polls)[2 * i] == CallbackMessage(MessageOf(polls, i)) && Drain(polls)[2 * i + 1] == NoticeFreed
  {
    DeliveredFromIs(polls, 0, 3);
    DrainContract(polls);
  }

  /** A cycle whose first non-delivering round is k is the first k
      deliveries followed by the stop of round k. */
  lemma DrainStopsAt(polls: seq<Poll>, k: nat)
    requires WellScripted(polls)
    requires forall i :: 0 <= i < k ==> Delivers(polls, i)
    requires !Delivers(polls, k)
    ensures Drain(polls) == Deliveries(polls, k) + Stop(polls, k)
  {
    DeliveredFromIs(polls, 0, k);
  }

  /** The loop body as the source runs it, against the scripted transport. */
  method OnZephyrFDReady(polls: seq<Poll>) returns (trace: seq<Action>)
    requires WellScripted(polls)
    ensures trace == Drain(polls)
  {
    trace := [];
    var k := 0;
    while true
      invariant forall i :: 0 <= i < k ==> Delivers(polls, i)
      invariant trace == Deliveries(polls, k)
      decreases |polls| - k
    {
      var len := PendingAt(polls, k);
      if len < 0 {
        DrainStopsAt(polls, k);
        trace := trace + [CallbackError(ComErr(polls[k].errno))];
        return;
      } else if len == 0 {
        DrainStopsAt(polls, k);
        assert trace + [] == trace;
        return;
      }
      var r := polls[k].receive;
      if r.ret != ZERR_NONE {
        DrainStopsAt(polls, k);
        trace := trace + [CallbackError(ComErr(r.ret))];
        return;
      }
      var obj := ZephyrToObject(r.notice, r.hostName);
      trace := trace + [CallbackMessage(obj)];
      trace := trace + [NoticeFreed];
      k := k + 1;
    }
  }
}
