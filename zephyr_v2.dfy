/** The second generation of the addon (src/zephyr.cc): subscribeTo, which
    now subscribes synchronously and throws on failure, and sendNotice, which
    takes its body from an array of strings and reads the header fields with
    GetStringProperty. The listener, ZephyrToObject and the uid correlator
    are the same code as in the first generation and live in Listener,
    Notices and Uids. */
module ZephyrV2 {

  import opened Js
  import opened Memory
  import opened Body
  import opened Notices
  import opened Subscriptions
  import opened Uids
  import ZephyrV1

  /* ---------------------------------------------------------------- subscribeTo */

  /** What subscribeTo(subs) does that can be observed: the exception it
      throws or its (undefined) return, and the ZSubscribeTo call it makes,
      if any. */
  datatype SubscribeRun = SubscribeRun(outcome: Completion<()>, call: Option<SubscribeCall>)

  /** subscribeTo on the batch `inSubs`, with ZSubscribeTo answering `reply`
      when it is called. The port is always 0. */
  function Subscribe(inSubs: seq<JsValue>, reply: int): (r: SubscribeRun)
    ensures (exists j :: 0 <= j < |inSubs| && !ShapeOk(inSubs[j])) ==>
              r == SubscribeRun(Threw(TypeError(MalformedV2)), None)
    ensures (forall j :: 0 <= j < |inSubs| ==> ShapeOk(inSubs[j])) ==>
              r.call == Some(SubscribeCall(NormalizeAll(inSubs), 0)) &&
              (r.outcome.Returned? <==> reply == ZERR_NONE) &&
              (r.outcome.Threw? ==> r.outcome.error == ComErr(reply))
  {
    if FirstInvalid(inSubs) < |inSubs| then
      SubscribeRun(Threw(TypeError(MalformedV2)), None)
    else if reply != ZERR_NONE then
      SubscribeRun(Threw(ComErr(reply)), Some(SubscribeCall(NormalizeAll(inSubs), 0)))
    else
      SubscribeRun(Returned(()), Some(SubscribeCall(NormalizeAll(inSubs), 0)))
  }

  /** Unlike the first generation, an empty batch still goes to ZSubscribeTo,
      and its answer decides whether subscribeTo throws; the first generation
      makes no call and reports success. */
  lemma SubscribeEmptyBatch(port: int, reply: int)
    ensures Subscribe([], reply).call == Some(SubscribeCall([], 0))
    ensures Subscribe([], reply).outcome.Threw? <==> reply != ZERR_NONE
    ensures ZephyrV1.Subscribe([], port, reply) == ZephyrV1.SubscribeRun(Returned(None), None)
  {
  }

  /** Both generations accept and reject the same batches, and on an accepted
      non-empty batch hand ZSubscribeTo the same triples. */
  lemma SubscribeAgreesWithV1(inSubs: seq<JsValue>, port: int, reply: int)
    ensures Subscribe(inSubs, reply).outcome.Threw? && Subscribe(inSubs, reply).call.None?
            <==> ZephyrV1.Subscribe(inSubs, port, reply).outcome.Threw?
    ensures |inSubs| > 0 && ZephyrV1.Subscribe(inSubs, port, reply).call.Some? ==>
              Subscribe(inSubs, reply).call.Some? &&
              Subscribe(inSubs, reply).call.value.subs == ZephyrV1.Subscribe(inSubs, port, reply).call.value.subs
  {
    if FirstInvalid(inSubs) < |inSubs| {
      assert !ShapeOk(inSubs[FirstInvalid(inSubs)]);
    }
  }

  /** subscribeTo: validate and copy the batch, call ZSubscribeTo with the
      whole of it, free every string and the array, then throw when the call
      failed. When an entry is rejected only the array is released; the
      strings of the entries before it stay allocated. */
  method SubscribeTo(heap: Allocator, inSubs: seq<JsValue>, reply: int)
    returns (outcome: Completion<()>, call: Option<SubscribeCall>)
    requires heap.Valid()
    modifies heap
    ensures heap.Valid()
    ensures SubscribeRun(outcome, call) == Subscribe(inSubs, reply)
    ensures call.Some? ==> heap.live == old(heap.live)
    ensures call.None? ==>
              heap.next == Base(inSubs, old(heap.next), FirstInvalid(inSubs)) &&
              heap.live == old(heap.live) + Range(old(heap.next) + 1, heap.next)
  {
    var ok, subs, arr := CollectSubscriptions(heap, inSubs);
    if !ok {
      return Threw(TypeError(MalformedV2)), None;
    }
    call := Some(SubscribeCall(Texts(subs[..]), 0));
    var ret := reply;
    FreeSubscriptions(heap, subs, arr, inSubs, old(heap.live));
    if ret != ZERR_NONE {
      outcome := Threw(ComErr(ret));
    } else {
      outcome := Returned(());
    }
  }

  /* ------------------------------------------------------------------ sendNotice */

  /** GetStringProperty: the default when the property reads as undefined
      (missing, or holding undefined), else the value converted to a string. */
  function GetStringProperty(source: JsObject, key: string, def: string): (r: string)
    ensures key !in source ==> r == def
    ensures key in source && source[key].Undefined? ==> r == def
    ensures key in source && !source[key].Undefined? ==> r == ToStr(source[key])
  {
    var value := Get(source, key);
    if value.Undefined? then def else ToStr(value)
  }

  /** The strings of the body's elements when the `body` property is an
      array; none otherwise. */
  function BodyStrings(v: JsValue): (r: seq<string>)
    ensures v.Arr? ==> |r| == |v.elems| && forall i :: 0 <= i < |r| ==> r[i] == ToStr(v.elems[i])
    ensures !v.Arr? ==> r == []
  {
    if v.Arr? then seq(|v.elems|, i requires 0 <= i < |v.elems| => ToStr(v.elems[i])) else []
  }

  const DefaultFormat: string := "http://zephyr.1ts.org/wiki/df"

  /** The notice sendNotice fills in. The header strings are handed over as
      c_str() pointers, so libzephyr reads each up to its first NUL; the body
      goes by pointer and length and keeps every byte. */
  function EncodeV2(source: JsObject): (n: OutNotice)
    ensures n.message == Join(BodyStrings(Get(source, "body")))
    ensures n.messageLen == |n.message| && n.kind == Acked
    ensures n.cls == CString(GetStringProperty(source, "class", "MESSAGE"))
    ensures n.instance == CString(GetStringProperty(source, "instance", "PERSONAL"))
    ensures n.format == CString(GetStringProperty(source, "format", DefaultFormat))
    ensures n.opcode == CString(GetStringProperty(source, "opcode", ""))
    ensures n.recipient == CString(GetStringProperty(source, "recipient", ""))
  {
    var body := Join(BodyStrings(Get(source, "body")));
    OutNotice(body, |body|, Acked,
              CString(GetStringProperty(source, "class", "MESSAGE")),
              CString(GetStringProperty(source, "instance", "PERSONAL")),
              CString(GetStringProperty(source, "format", DefaultFormat)),
              CString(GetStringProperty(source, "opcode", "")),
              CString(GetStringProperty(source, "recipient", "")))
  }

  /** An array body of NUL-free strings whose last one is not empty comes
      back out of the receiving side's split as exactly those strings. */
  lemma BodyRoundTrip(source: JsObject)
    requires Get(source, "body").Arr?
    requires forall i :: 0 <= i < |Get(source, "body").elems| ==> NUL !in ToStr(Get(source, "body").elems[i])
    requires var e := Get(source, "body").elems; e == [] || ToStr(e[|e| - 1]) != []
    ensures Split(EncodeV2(source).message) == BodyStrings(Get(source, "body"))
  {
    SplitJoin(BodyStrings(Get(source, "body")));
  }

  /** A `body` that is not an array (missing, a string, anything else) sends
      an empty message. */
  lemma NonArrayBodyIsEmpty(source: JsObject)
    requires !Get(source, "body").Arr?
    ensures EncodeV2(source).message == [] && EncodeV2(source).messageLen == 0
  {
  }

  /** The body is not validated: a NUL inside an element splits it in two on
      the receiving side. */
  lemma NulInElementSplits(source: JsObject)
    requires Get(source, "body") == Arr([Str("a\0b")])
    ensures Split(EncodeV2(source).message) == ["a", "b"]
  {
    var strings := BodyStrings(Get(source, "body"));
    assert strings == ["a\0b"];
    assert Join(strings) == "a" + [NUL] + "b";
    SplitLeadingSegment("a", "b");
    SplitNulFree("b");
  }

  /** A final empty element disappears on the receiving side. */
  lemma FinalEmptyElementDropped(source: JsObject)
    requires Get(source, "body") == Arr([Str("a"), Str("")])
    ensures Split(EncodeV2(source).message) == ["a"]
  {
    var strings := BodyStrings(Get(source, "body"));
    assert strings == ["a", ""] && strings[1..] == [""];
    assert Join(strings[1..]) == [];
    assert Join(strings) == "a" + [NUL] + [];
    SplitLeadingSegment("a", []);
  }

  /** The values sendNotice falls back to for every property that reads as
      undefined: an empty message and the default header fields. */
  lemma EncodeV2Defaults(source: JsObject)
    requires !Get(source, "body").Arr?
    requires Get(source, "class").Undefined? && Get(source, "instance").Undefined?
    requires Get(source, "format").Undefined? && Get(source, "opcode").Undefined?
    requires Get(source, "recipient").Undefined?
    ensures var n := EncodeV2(source);
            && n.message == [] && n.messageLen == 0 && n.kind == Acked
            && n.cls == "MESSAGE" && n.instance == "PERSONAL"
            && n.format == "http://zephyr.1ts.org/wiki/df" && n.opcode == "" && n.recipient == ""
  {
    CStringOfNulFree("MESSAGE");
    CStringOfNulFree("PERSONAL");
    CStringOfNulFree(DefaultFormat);
    CStringOfNulFree("");
  }

  /** Given the same default, a header field reads the same in both
      generations unless the property holds undefined: then the first
      generation sends "undefined" and the second its default. */
  lemma HeaderAgreesWithV1(source: JsObject, key: string, def: string)
    ensures !Get(source, key).Undefined? || key !in source ==>
              ZephyrV1.Mkstr(source, key, def) == CString(GetStringProperty(source, key, def))
    ensures key in source && source[key].Undefined? ==>
              ZephyrV1.Mkstr(source, key, def) == "undefined" &&
              CString(GetStringProperty(source, key, def)) == CString(def)
  {
    CStringOfNulFree("undefined");
  }

  /** The defaults themselves differ for `format`: with the key missing the
      first generation sends "" and the second the wiki URL. */
  lemma FormatDefaultsDiffer(source: JsObject)
    requires "format" !in source
    ensures ZephyrV1.Mkstr(source, "format", "") == ""
    ensures CString(GetStringProperty(source, "format", DefaultFormat)) == DefaultFormat
  {
    ZephyrV1.MkstrDefault(source, "format", "");
    CStringOfNulFree(DefaultFormat);
  }

  /** A notice sent by sendNotice and received unchanged is decoded into the
      body strings it was built from, when those allow the round trip. */
  lemma SendThenDecode(source: JsObject, n: ZNotice, hostName: Option<string>)
    requires n.message == EncodeV2(source).message && n.messageLen == EncodeV2(source).messageLen
    requires 0 <= n.numOtherFields <= |n.otherFields|
    requires Get(source, "body").Arr?
    requires forall i :: 0 <= i < |Get(source, "body").elems| ==> NUL !in ToStr(Get(source, "body").elems[i])
    requires var e := Get(source, "body").elems; e == [] || ToStr(e[|e| - 1]) != []
    ensures WellFormed(n) && Decode(n, hostName).body == BodyStrings(Get(source, "body"))
  {
    assert MessageBytes(n) == n.message;
    DecodeBody(n, hostName);
    BodyRoundTrip(source);
  }

  /** The body loop of sendNotice: each element's string, with a NUL pushed
      before every element after the first. */
  method AssembleBody(bodyValue: JsValue) returns (body: Bytes)
    ensures body == Join(BodyStrings(bodyValue))
  {
    body := [];
    if bodyValue.Arr? {
      ghost var strings := BodyStrings(bodyValue);
      for i := 0 to |bodyValue.elems|
        invariant body == Join(strings[..i])
      {
        var value := ToStr(bodyValue.elems[i]);
        assert strings[..i + 1] == strings[..i] + [value];
        if i > 0 {
          body := body + [NUL];
          JoinSnoc(strings[..i], value);
        } else {
          assert strings[..i + 1] == [value];
        }
        body := body + value;
      }
      assert strings[..|bodyValue.elems|] == strings;
    }
  }

  /** sendNotice(obj): assemble the body, read the header fields, hand the
      notice to ZSrvSendNotice with SendFunction, then throw or return the
      uids. The strings live in std::string values that free themselves. */
  method SendNotice(uids: UidCorrelator, source: JsObject, packets: seq<Packet>, libRet: int)
    returns (result: Completion<seq<Uid>>, sent: OutNotice)
    modifies uids
    ensures sent == EncodeV2(source)
    ensures uids.waitOnUids == []
    ensures result == SendOutcome(old(uids.waitOnUids), packets, libRet)
  {
    var body := AssembleBody(Get(source, "body"));
    var msgClass := GetStringProperty(source, "class", "MESSAGE");
    var instance := GetStringProperty(source, "instance", "PERSONAL");
    var format := GetStringProperty(source, "format", DefaultFormat);
    var opcode := GetStringProperty(source, "opcode", "");
    var recipient := GetStringProperty(source, "recipient", "");
    sent := OutNotice(body, |body|, Acked, CString(msgClass), CString(instance),
                      CString(format), CString(opcode), CString(recipient));
    var ret := uids.SrvSendNotice(packets, libRet);
    result := uids.Finish(ret);
  }
}
