/** The first generation of the addon (zephyr.cc): subscribeTo with its
    queued subscribe_work and subscribe_cleanup, the subscription listing
    subs, and sendNotice with mkstr and object_to_zephyr. The QUEUE macro runs
    the work step and then the cleanup step at once, so each operation is one
    sequential method. */
module ZephyrV1 {

  import opened Js
  import opened Memory
  import opened Body
  import opened Notices
  import opened Subscriptions
  import opened Uids

  /* ---------------------------------------------------------------- subscribeTo */

  /** What subscribeTo(subs, callback) does that can be observed: the
      exception it throws, or the one argument its callback receives (None
      standing for null); and the ZSubscribeTo call it makes, if any. */
  datatype SubscribeRun = SubscribeRun(outcome: Completion<Option<JsError>>, call: Option<SubscribeCall>)

  /** subscribe_cleanup: null on success, else an exception carrying the code. */
  function SubscribeCleanup(ret: int): (arg: Option<JsError>)
    ensures arg.None? <==> ret == ZERR_NONE
    ensures arg.Some? ==> arg.value == ComErr(ret)
  {
    if ret != ZERR_NONE then Some(ComErr(ret)) else None
  }

  /** subscribeTo on the batch `inSubs`, with g_port equal to `port` and
      ZSubscribeTo answering `reply` when it is called. */
  function Subscribe(inSubs: seq<JsValue>, port: int, reply: int): (r: SubscribeRun)
    ensures r.outcome.Threw? <==> exists j :: 0 <= j < |inSubs| && !ShapeOk(inSubs[j])
    ensures r.outcome.Threw? ==> r.outcome.error == Error(MalformedV1) && r.call.None?
    ensures r.outcome.Returned? ==>
              (r.call.Some? <==> |inSubs| > 0) &&
              (r.call.Some? ==> r.call.value == SubscribeCall(NormalizeAll(inSubs), port)) &&
              (r.outcome.value.None? <==> |inSubs| == 0 || reply == ZERR_NONE) &&
              (r.outcome.value.Some? ==> r.outcome.value.value == ComErr(reply))
  {
    if FirstInvalid(inSubs) < |inSubs| then
      assert !ShapeOk(inSubs[FirstInvalid(inSubs)]);
      SubscribeRun(Threw(Error(MalformedV1)), None)
    else if |inSubs| > 0 then
      SubscribeRun(Returned(SubscribeCleanup(reply)), Some(SubscribeCall(NormalizeAll(inSubs), port)))
    else
      SubscribeRun(Returned(SubscribeCleanup(ZERR_NONE)), None)
  }

  /** A malformed entry anywhere in the batch means an exception and no
      ZSubscribeTo call, whatever the other entries are. */
  lemma SubscribeRejectsMalformed(inSubs: seq<JsValue>, j: nat, port: int, reply: int)
    requires j < |inSubs| && !ShapeOk(inSubs[j])
    ensures Subscribe(inSubs, port, reply) == SubscribeRun(Threw(Error(MalformedV1)), None)
  {
  }

  /** subscribe_work: one ZSubscribeTo call with the whole batch when it is
      not empty (else success without a call), then every string and the
      array freed whatever the call returned. */
  method SubscribeWork(heap: Allocator, subs: array<Slot>, arr: Ptr, length: int, port: int, reply: int,
                       ghost inSubs: seq<JsValue>, ghost before: set<Ptr>)
    returns (ret: int, call: Option<SubscribeCall>)
    requires heap.Valid() && length == subs.Length == |inSubs|
    requires forall j :: 0 <= j < |inSubs| ==> ShapeOk(inSubs[j])
    requires forall j {:trigger subs[j]} :: 0 <= j < subs.Length ==>
      Placed(subs[j], Base(inSubs, arr, j)) && SlotText(subs[j]) == Normalize(inSubs[j])
    requires forall p :: p in before ==> p < arr
    requires heap.live == before + {arr} + Range(arr + 1, Base(inSubs, arr, |inSubs|))
    modifies heap
    ensures heap.Valid() && heap.next == old(heap.next)
    ensures heap.live == before
    ensures call == (if length > 0 then Some(SubscribeCall(NormalizeAll(inSubs), port)) else None)
    ensures ret == (if length > 0 then reply else ZERR_NONE)
  {
    if length > 0 {
      assert forall j :: 0 <= j < subs.Length ==> subs[..][j] == subs[j];
      assert Texts(subs[..]) == NormalizeAll(inSubs);
      call := Some(SubscribeCall(Texts(subs[..]), port));
      ret := reply;
    } else {
      call := None;
      ret := ZERR_NONE;
    }
    FreeSubscriptions(heap, subs, arr, inSubs, before);
  }

  /** subscribeTo: validate and copy the batch, then run subscribe_work and
      subscribe_cleanup. When the batch is accepted every buffer is released
      again; when an entry is rejected only the array is, and the strings of
      the entries before it stay allocated. */
  method SubscribeTo(heap: Allocator, inSubs: seq<JsValue>, port: int, reply: int)
    returns (outcome: Completion<Option<JsError>>, call: Option<SubscribeCall>)
    requires heap.Valid()
    modifies heap
    ensures heap.Valid()
    ensures SubscribeRun(outcome, call) == Subscribe(inSubs, port, reply)
    ensures outcome.Returned? ==> heap.live == old(heap.live)
    ensures outcome.Threw? ==>
              heap.next == Base(inSubs, old(heap.next), FirstInvalid(inSubs)) &&
              heap.live == old(heap.live) + Range(old(heap.next) + 1, heap.next)
  {
    var ok, subs, arr := CollectSubscriptions(heap, inSubs);
    if !ok {
      return Threw(Error(MalformedV1)), None;
    }
    var ret;
    ret, call := SubscribeWork(heap, subs, arr, |inSubs|, port, reply, inSubs, old(heap.live));
    outcome := Returned(SubscribeCleanup(ret));
  }

  /* ----------------------------------------------------------------------- subs */

  /** What one ZGetSubscriptions call yields: its code and the subscription. */
  datatype Retrieved = Retrieved(ret: int, cls: string, instance: string, recipient: string)

  /** What subs(callback) passes to its callback: an error, or null and the
      array of subscriptions. */
  datatype ListReply = ListError(error: JsError) | ListOk(subs: JsValue)

  /** The `[ class, instance, recipient ]` array built for one subscription. */
  function SubValue(e: Retrieved): JsValue
  {
    Arr([Str(e.cls), Str(e.instance), Str(e.recipient)])
  }

  function SubValues(es: seq<Retrieved>): (r: seq<JsValue>)
    ensures |r| == |es| && forall i :: 0 <= i < |r| ==> r[i] == SubValue(es[i])
  {
    if es == [] then [] else [SubValue(es[0])] + SubValues(es[1..])
  }

  /** The transport answers the listing sensibly: when ZRetrieveSubscriptions
      succeeds, its count is not negative and each of that many
      ZGetSubscriptions calls succeeds with three C strings, which hold no NUL
      (String::New reads each up to its terminator). (A failing
      ZGetSubscriptions leaves the array NULL with the code still ZERR_NONE,
      and subs_cleanup then reads through it; that case is excluded.) */
  predicate ListScripted(retrieveRet: int, nsubs: int, entries: seq<Retrieved>)
  {
    retrieveRet == ZERR_NONE ==>
      0 <= nsubs <= |entries| &&
      forall i :: 0 <= i < nsubs ==>
        entries[i].ret == ZERR_NONE &&
        NUL !in entries[i].cls && NUL !in entries[i].instance && NUL !in entries[i].recipient
  }

  /** subs(callback): the error of ZRetrieveSubscriptions, or the retrieved
      subscriptions in order, each as `[ class, instance, recipient ]`. */
  function ListSubs(retrieveRet: int, nsubs: int, entries: seq<Retrieved>): (r: ListReply)
    requires ListScripted(retrieveRet, nsubs, entries)
    ensures r.ListError? <==> retrieveRet != ZERR_NONE
    ensures r.ListError? ==> r.error == ComErr(retrieveRet)
    ensures r.ListOk? ==>
              r.subs.Arr? && |r.subs.elems| == nsubs &&
              forall i :: 0 <= i < nsubs ==>
                r.subs.elems[i] == Arr([Str(entries[i].cls), Str(entries[i].instance), Str(entries[i].recipient)])
  {
    if retrieveRet != ZERR_NONE then ListError(ComErr(retrieveRet))
    else ListOk(Arr(SubValues(entries[..nsubs])))
  }

  /** subs_work: ZRetrieveSubscriptions, then a fresh array filled by one
      ZGetSubscriptions call per subscription. */
  method SubsWork(heap: Allocator, retrieveRet: int, nsubs: int, entries: seq<Retrieved>)
    returns (ret: int, subs: Option<array<Retrieved>>, buffer: Option<Ptr>)
    requires heap.Valid() && ListScripted(retrieveRet, nsubs, entries)
    modifies heap
    ensures heap.Valid() && ret == retrieveRet
    ensures ret != ZERR_NONE ==> subs.None? && buffer.None? && heap.live == old(heap.live)
    ensures ret == ZERR_NONE ==>
              subs.Some? && fresh(subs.value) && subs.value[..] == entries[..nsubs] &&
              buffer == Some(old(heap.next)) && heap.live == old(heap.live) + {old(heap.next)}
  {
    ret := retrieveRet;
    if ret != ZERR_NONE {
      return ret, None, None;
    }
    var p := heap.Malloc();
    var a := new Retrieved[nsubs](_ => Retrieved(ZERR_NONE, "", "", ""));
    for i := 0 to nsubs
      modifies a
      invariant a[..i] == entries[..i]
    {
      a[i] := entries[i];
      assert a[..i + 1] == a[..i] + [entries[i]];
      assert entries[..i + 1] == entries[..i] + [entries[i]];
    }
    assert a[..] == a[..nsubs];
    subs, buffer := Some(a), Some(p);
  }

  /** subs_cleanup: report the error, or build the array of subscriptions and
      pass it with null; then delete[] the array (a no-op on NULL). */
  method SubsCleanup(heap: Allocator, ret: int, subs: Option<array<Retrieved>>, buffer: Option<Ptr>)
    returns (reply: ListReply)
    requires heap.Valid()
    requires ret == ZERR_NONE ==> subs.Some? && buffer.Some?
    requires buffer.Some? ==> buffer.value in heap.live
    modifies heap
    ensures heap.Valid()
    ensures heap.live == (if buffer.Some? then old(heap.live) - {buffer.value} else old(heap.live))
    ensures ret != ZERR_NONE ==> reply == ListError(ComErr(ret))
    ensures ret == ZERR_NONE ==> reply == ListOk(Arr(SubValues(subs.value[..])))
  {
    if ret != ZERR_NONE {
      reply := ListError(ComErr(ret));
    } else {
      var a := subs.value;
      var list: seq<JsValue> := [];
      for i := 0 to a.Length
        invariant |list| == i && forall k :: 0 <= k < i ==> list[k] == SubValue(a[k])
      {
        list := list + [Arr([Str(a[i].cls), Str(a[i].instance), Str(a[i].recipient)])];
      }
      assert list == SubValues(a[..]);
      reply := ListOk(Arr(list));
    }
    heap.FreeNullable(buffer);
  }

  /** subs(callback): subs_work, then subs_cleanup; the array does not outlive the call. */
  method Subs(heap: Allocator, retrieveRet: int, nsubs: int, entries: seq<Retrieved>) returns (reply: ListReply)
    requires heap.Valid() && ListScripted(retrieveRet, nsubs, entries)
    modifies heap
    ensures heap.Valid() && heap.live == old(heap.live)
    ensures reply == ListSubs(retrieveRet, nsubs, entries)
  {
    var ret, subs, buffer := SubsWork(heap, retrieveRet, nsubs, entries);
    reply := SubsCleanup(heap, ret, subs, buffer);
  }

  /* ------------------------------------------------------------------ sendNotice */

  /** mkstr: when the object has the key (even holding undefined), a copy of
      its value converted to a string; otherwise a copy of the default. Both
      copies end at the first NUL. */
  function Mkstr(source: JsObject, key: string, def: string): (r: string)
    ensures NUL !in r
    ensures key in source ==> r == CString(ToStr(source[key]))
    ensures key !in source ==> r == CString(def)
  {
    if key in source then CString(ToStr(source[key])) else CString(def)
  }

  /** The notice object_to_zephyr fills in. */
  function EncodeV1(source: JsObject): (n: OutNotice)
    ensures Split(n.message) == [Mkstr(source, "signature", ""), Mkstr(source, "message", "")]
    ensures n.messageLen == |n.message| ==
            |Mkstr(source, "signature", "")| + |Mkstr(source, "message", "")| + 2
    ensures n.kind == Acked
    ensures n.cls == Mkstr(source, "class", "MESSAGE") && n.instance == Mkstr(source, "instance", "PERSONAL")
    ensures n.format == Mkstr(source, "format", "") && n.opcode == Mkstr(source, "opcode", "")
    ensures n.recipient == Mkstr(source, "recipient", "")
  {
    var signature := Mkstr(source, "signature", "");
    var message := Mkstr(source, "message", "");
    CStringOfNulFree(signature);
    CStringOfNulFree(message);
    SplitSignedBody(signature, message);
    OutNotice(SignedBody(signature, message), |signature| + |message| + 2, Acked,
              Mkstr(source, "class", "MESSAGE"), Mkstr(source, "instance", "PERSONAL"),
              Mkstr(source, "format", ""), Mkstr(source, "opcode", ""), Mkstr(source, "recipient", ""))
  }

  /** A key the object lacks yields its default, whole when it holds no NUL. */
  lemma MkstrDefault(source: JsObject, key: string, def: string)
    requires key !in source && NUL !in def
    ensures Mkstr(source, key, def) == def
  {
    CStringOfNulFree(def);
  }

  /** With none of the keys present, the notice carries the defaults and a
      message of two NULs. */
  lemma EncodeV1Defaults(source: JsObject)
    requires "signature" !in source && "message" !in source
    requires "class" !in source && "instance" !in source && "format" !in source
    requires "opcode" !in source && "recipient" !in source
    ensures var n := EncodeV1(source);
            && n.message == [NUL, NUL] && n.messageLen == 2 && n.kind == Acked
            && n.cls == "MESSAGE" && n.instance == "PERSONAL"
            && n.format == "" && n.opcode == "" && n.recipient == ""
  {
    MkstrDefault(source, "signature", "");
    MkstrDefault(source, "message", "");
    MkstrDefault(source, "class", "MESSAGE");
    MkstrDefault(source, "instance", "PERSONAL");
    MkstrDefault(source, "format", "");
    MkstrDefault(source, "opcode", "");
    MkstrDefault(source, "recipient", "");
    assert SignedBody("", "") == [NUL, NUL];
  }

  /** mkstr as the source runs it: strndup of the converted value, or strdup
      of the default, into a fresh buffer. */
  method MkstrAlloc(heap: Allocator, source: JsObject, key: string, def: string) returns (c: CStr)
    requires heap.Valid()
    modifies heap
    ensures heap.Valid()
    ensures c.ptr == old(heap.next) && heap.next == old(heap.next) + 1
    ensures heap.live == old(heap.live) + {c.ptr}
    ensures c.text == Mkstr(source, key, def)
  {
    var p := heap.Malloc();
    if key in source {
      c := CStr(p, CString(ToStr(source[key])));
    } else {
      c := CStr(p, CString(def));
    }
  }

  /** strcpy(buf + at, s): s and its terminating NUL, nothing else touched. */
  method StrCpy(buf: array<char>, at: nat, s: string)
    requires NUL !in s && at + |s| < buf.Length
    modifies buf
    ensures forall j :: 0 <= j < buf.Length ==>
              buf[j] == if at <= j < at + |s| then s[j - at] else if j == at + |s| then NUL else old(buf[j])
  {
    for k := 0 to |s|
      invariant forall j :: 0 <= j < buf.Length ==>
                  buf[j] == if at <= j < at + k then s[j - at] else old(buf[j])
    {
      buf[at + k] := s[k];
    }
    buf[at + |s|] := NUL;
  }

  /** new char[len], then strcpy of the signature at the start and of the
      message just past the signature's NUL. */
  method LayOutBody(signature: string, message: string) returns (buf: array<char>)
    requires NUL !in signature && NUL !in message
    ensures fresh(buf)
    ensures buf[..] == signature + [NUL] + message + [NUL]
  {
    buf := new char[|signature| + |message| + 2];
    StrCpy(buf, 0, signature);
    StrCpy(buf, |signature| + 1, message);
    ghost var body := signature + [NUL] + message + [NUL];
    assert forall j :: 0 <= j < buf.Length ==> buf[j] == body[j];
  }

  /** The six buffers object_to_zephyr leaves in the notice. */
  datatype NoticeBuffers = NoticeBuffers(message: Ptr, cls: Ptr, instance: Ptr, format: Ptr, opcode: Ptr, recipient: Ptr)

  /** The first half of object_to_zephyr: copy signature and message, lay
      them out in a fresh buffer of their lengths plus two, free the two
      copies. Only the laid-out buffer stays allocated. */
  method CopyBody(heap: Allocator, source: JsObject) returns (body: Bytes, len: int, ptr: Ptr)
    requires heap.Valid()
    modifies heap
    ensures heap.Valid()
    ensures body == SignedBody(Mkstr(source, "signature", ""), Mkstr(source, "message", ""))
    ensures len == |Mkstr(source, "signature", "")| + |Mkstr(source, "message", "")| + 2
    ensures ptr == old(heap.next) + 2 && heap.next == old(heap.next) + 3
    ensures heap.live == old(heap.live) + {ptr}
  {
    var signature := MkstrAlloc(heap, source, "signature", "");
    var message := MkstrAlloc(heap, source, "message", "");
    len := |signature.text| + |message.text| + 2;
    ptr := heap.Malloc();
    var buf := LayOutBody(signature.text, message.text);
    heap.Free(signature.ptr);
    heap.Free(message.ptr);
    CStringOfNulFree(signature.text);
    CStringOfNulFree(message.text);
    body := buf[..];
  }

  /** The header fields of the notice as plain values. */
  datatype Headers = Headers(cls: CStr, instance: CStr, format: CStr, opcode: CStr, recipient: CStr)

  /** The second half of object_to_zephyr: one mkstr per header field, in
      the order class, instance, format, opcode, recipient. */
  method CopyHeaders(heap: Allocator, source: JsObject) returns (h: Headers)
    requires heap.Valid()
    modifies heap
    ensures heap.Valid()
    ensures h.cls.text == Mkstr(source, "class", "MESSAGE") && h.instance.text == Mkstr(source, "instance", "PERSONAL")
    ensures h.format.text == Mkstr(source, "format", "") && h.opcode.text == Mkstr(source, "opcode", "")
    ensures h.recipient.text == Mkstr(source, "recipient", "")
    ensures h.cls.ptr == old(heap.next) && h.instance.ptr == old(heap.next) + 1 && h.format.ptr == old(heap.next) + 2
    ensures h.opcode.ptr == old(heap.next) + 3 && h.recipient.ptr == old(heap.next) + 4
    ensures heap.next == old(heap.next) + 5
    ensures heap.live == old(heap.live) + {h.cls.ptr} + {h.instance.ptr} + {h.format.ptr} + {h.opcode.ptr} + {h.recipient.ptr}
  {
    var cls := MkstrAlloc(heap, source, "class", "MESSAGE");
    var instance := MkstrAlloc(heap, source, "instance", "PERSONAL");
    var format := MkstrAlloc(heap, source, "format", "");
    var opcode := MkstrAlloc(heap, source, "opcode", "");
    var recipient := MkstrAlloc(heap, source, "recipient", "");
    h := Headers(cls, instance, format, opcode, recipient);
  }

  /** object_to_zephyr: the body, then the header fields. */
  method ObjectToZephyr(heap: Allocator, source: JsObject) returns (n: OutNotice, b: NoticeBuffers)
    requires heap.Valid()
    modifies heap
    ensures heap.Valid()
    ensures n == EncodeV1(source)
    ensures old(heap.next) <= b.message < b.cls < b.instance < b.format < b.opcode < b.recipient < heap.next
    ensures heap.live == old(heap.live) + {b.message} + {b.cls} + {b.instance} + {b.format} + {b.opcode} + {b.recipient}
  {
    var body, len, messagePtr := CopyBody(heap, source);
    var h := CopyHeaders(heap, source);
    n := OutNotice(body, len, Acked, h.cls.text, h.instance.text, h.format.text, h.opcode.text, h.recipient.text);
    b := NoticeBuffers(messagePtr, h.cls.ptr, h.instance.ptr, h.format.ptr, h.opcode.ptr, h.recipient.ptr);
  }

  /** sendNotice(obj): build the notice, hand it to ZSrvSendNotice with
      SendFunction, free its six buffers, then throw or return the uids. */
  method SendNotice(heap: Allocator, uids: UidCorrelator, source: JsObject, packets: seq<Packet>, libRet: int)
    returns (result: Completion<seq<Uid>>, sent: OutNotice)
    requires heap.Valid()
    modifies heap, uids
    ensures heap.Valid() && heap.live == old(heap.live)
    ensures sent == EncodeV1(source)
    ensures uids.waitOnUids == []
    ensures result == SendOutcome(old(uids.waitOnUids), packets, libRet)
  {
    var b;
    sent, b := ObjectToZephyr(heap, source);
    var ret := uids.SrvSendNotice(packets, libRet);
    FreeNoticeBuffers(heap, b, old(heap.live));
    result := uids.Finish(ret);
  }

  /** The six frees of sendNotice, once the notice has gone out. */
  method FreeNoticeBuffers(heap: Allocator, b: NoticeBuffers, ghost before: set<Ptr>)
    requires heap.Valid()
    requires b.message < b.cls < b.instance < b.format < b.opcode < b.recipient
    requires forall p :: p in before ==> p < b.message
    requires heap.live == before + {b.message} + {b.cls} + {b.instance} + {b.format} + {b.opcode} + {b.recipient}
    modifies heap
    ensures heap.Valid() && heap.next == old(heap.next)
    ensures heap.live == before
  {
    heap.Free(b.message);
    heap.Free(b.cls);
    heap.Free(b.instance);
    heap.Free(b.format);
    heap.Free(b.opcode);
    heap.Free(b.recipient);
  }
}
