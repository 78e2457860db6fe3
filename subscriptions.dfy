/** Subscription requests, shared by both generations of subscribeTo: the
    shape test for one entry, the fill loop that validates each entry and
    copies its strings into a ZSubscription_t array, and the loop that frees
    those strings and the array again. */
module Subscriptions {

  import opened Js
  import opened Memory

  /** A subscription as ZSubscribeTo receives it; a missing recipient is NULL. */
  datatype Triple = Triple(cls: string, instance: string, recipient: Option<string>)

  /** One ZSubscribeTo call: the whole batch and the port. */
  datatype SubscribeCall = SubscribeCall(subs: seq<Triple>, port: int)

  /** A heap-owned C string: its buffer and its contents. */
  datatype CStr = CStr(ptr: Ptr, text: string)

  /** An element of the ZSubscription_t array: not yet written, or holding the
      recipient (NULL when the entry has two elements), instance and class. */
  datatype Slot = Unset | Filled(recipient: Option<CStr>, classinst: CStr, cls: CStr)

  const MalformedV1: string := "subs must be [ class, instance, recipient? ]"
  const MalformedV2: string := "Subs must be [ class, instance, recipient? ]"

  /** The shape test of subscribeTo: the switch on the entry's length, where
      case 3 checks position 2 and falls through into the checks of case 2. */
  function ShapeOk(v: JsValue): (ok: bool)
    ensures ok ==> v.Arr? && 2 <= |v.elems| <= 3
  {
    v.Arr? &&
    match |v.elems|
    case 3 => v.elems[2].Str? && v.elems[1].Str? && v.elems[0].Str?
    case 2 => v.elems[1].Str? && v.elems[0].Str?
    case _ => false
  }

  /** The fall-through switch accepts exactly the arrays of two or three
      strings. */
  lemma ShapeOkMeans(v: JsValue)
    ensures ShapeOk(v) <==> v.Arr? && (|v.elems| == 2 || |v.elems| == 3) &&
                            forall i :: 0 <= i < |v.elems| ==> v.elems[i].Str?
  {
    if v.Arr? && |v.elems| == 3 && forall i :: 0 <= i < |v.elems| ==> v.elems[i].Str? {
      assert v.elems[0].Str? && v.elems[1].Str? && v.elems[2].Str?;
    }
    if v.Arr? && |v.elems| == 2 && forall i :: 0 <= i < |v.elems| ==> v.elems[i].Str? {
      assert v.elems[0].Str? && v.elems[1].Str?;
    }
  }

  /** The triple an accepted entry becomes: class from position 0, instance
      from position 1, recipient from position 2 exactly when there is one;
      each copied with getstr, so cut at its first NUL. */
  function Normalize(v: JsValue): (t: Triple)
    requires ShapeOk(v)
    ensures t.cls == CString(v.elems[0].s) && t.instance == CString(v.elems[1].s)
    ensures t.recipient.Some? <==> |v.elems| == 3
    ensures t.recipient.Some? ==> t.recipient.value == CString(v.elems[2].s)
  {
    Triple(CString(v.elems[0].s), CString(v.elems[1].s),
           if |v.elems| == 3 then Some(CString(v.elems[2].s)) else None)
  }

  /** Index of the first entry that fails the shape test, or |subs|. */
  function FirstInvalid(subs: seq<JsValue>): (r: nat)
    ensures r <= |subs|
    ensures forall j :: 0 <= j < r ==> ShapeOk(subs[j])
    ensures r < |subs| ==> !ShapeOk(subs[r])
  {
    if subs == [] then 0
    else if !ShapeOk(subs[0]) then 0
    else 1 + FirstInvalid(subs[1..])
  }

  /** A batch is accepted exactly when every entry passes the shape test. */
  lemma FirstInvalidMeansRejected(subs: seq<JsValue>)
    ensures FirstInvalid(subs) == |subs| <==> forall j :: 0 <= j < |subs| ==> ShapeOk(subs[j])
  {
  }

  /** The normalised triples of an accepted batch, in order. */
  function NormalizeAll(subs: seq<JsValue>): (r: seq<Triple>)
    requires forall j :: 0 <= j < |subs| ==> ShapeOk(subs[j])
    ensures |r| == |subs|
    ensures forall j :: 0 <= j < |r| ==> r[j] == Normalize(subs[j])
  {
    if subs == [] then [] else [Normalize(subs[0])] + NormalizeAll(subs[1..])
  }

  /** The number of strings getstr copies for the first k entries. */
  function PrefixStrings(subs: seq<JsValue>, k: nat): nat
    requires k <= |subs| && forall j :: 0 <= j < k ==> ShapeOk(subs[j])
  {
    if k == 0 then 0
    else
      assert ShapeOk(subs[k - 1]);
      PrefixStrings(subs, k - 1) + |subs[k - 1].elems|
  }

  lemma {:induction false} PrefixStringsMono(subs: seq<JsValue>, i: nat, k: nat)
    requires i <= k <= |subs| && forall j :: 0 <= j < k ==> ShapeOk(subs[j])
    ensures PrefixStrings(subs, i) <= PrefixStrings(subs, k)
    decreases k - i
  {
    if i < k {
      PrefixStringsMono(subs, i, k - 1);
    }
  }

  function SlotText(s: Slot): Triple
    requires s.Filled?
  {
    Triple(s.cls.text, s.classinst.text,
           if s.recipient.Some? then Some(s.recipient.value.text) else None)
  }

  /** The triples the array holds. */
  function Texts(slots: seq<Slot>): (r: seq<Triple>)
    requires forall j :: 0 <= j < |slots| ==> slots[j].Filled?
    ensures |r| == |slots| && forall j :: 0 <= j < |r| ==> r[j] == SlotText(slots[j])
  {
    if slots == [] then [] else [SlotText(slots[0])] + Texts(slots[1..])
  }

  /** The buffers of an element sit at lo, lo+1 and so on, in the order
      they are allocated and freed: recipient (when there is one), instance,
      class. */
  predicate Placed(s: Slot, lo: nat)
  {
    s.Filled? &&
    match s.recipient
    case Some(r) => r.ptr == lo && s.classinst.ptr == lo + 1 && s.cls.ptr == lo + 2
    case None => s.classinst.ptr == lo && s.cls.ptr == lo + 1
  }

  /** The first buffer of element j when the array itself is `arr`. */
  function Base(inSubs: seq<JsValue>, arr: Ptr, j: nat): nat
    requires j <= |inSubs| && forall k :: 0 <= k < j ==> ShapeOk(inSubs[k])
  {
    arr + 1 + PrefixStrings(inSubs, j)
  }

  /** getstr: copy a JavaScript string into a fresh C string. */
  method GetStr(heap: Allocator, v: JsValue) returns (c: CStr)
    requires heap.Valid()
    modifies heap
    ensures heap.Valid()
    ensures c.ptr == old(heap.next) && heap.next == old(heap.next) + 1
    ensures heap.live == old(heap.live) + {c.ptr}
    ensures c.text == CString(ToStr(v))
  {
    var p := heap.Malloc();
    c := CStr(p, CString(ToStr(v)));
  }

  /** Copy one accepted entry into an array element: recipient (only for a
      three-element entry), then instance, then class. */
  method FillSlot(heap: Allocator, sub: JsValue) returns (slot: Slot)
    requires heap.Valid() && ShapeOk(sub)
    modifies heap
    ensures heap.Valid()
    ensures slot.Filled? && SlotText(slot) == Normalize(sub)
    ensures Placed(slot, old(heap.next)) && heap.next == old(heap.next) + |sub.elems|
    ensures forall p :: p in heap.live <==> p in old(heap.live) || old(heap.next) <= p < heap.next
  {
    var recipient: Option<CStr> := None;
    if |sub.elems| == 3 {
      var r := GetStr(heap, sub.elems[2]);
      recipient := Some(r);
    }
    var classinst := GetStr(heap, sub.elems[1]);
    var cls := GetStr(heap, sub.elems[0]);
    slot := Filled(recipient, classinst, cls);
  }

  /** The loop of subscribeTo: allocate the array, then test each entry and
      copy its strings. On the first malformed entry the array is deleted and
      the loop gives up; the strings of the entries before it stay allocated. */
  method CollectSubscriptions(heap: Allocator, inSubs: seq<JsValue>)
    returns (ok: bool, subs: array<Slot>, arr: Ptr)
    requires heap.Valid()
    modifies heap
    ensures heap.Valid() && arr == old(heap.next) && fresh(subs)
    ensures ok <==> FirstInvalid(inSubs) == |inSubs|
    ensures ok ==> subs.Length == |inSubs| &&
                   (forall j :: 0 <= j < subs.Length ==> subs[j].Filled?) &&
                   Texts(subs[..]) == NormalizeAll(inSubs) &&
                   (forall j {:trigger subs[j]} :: 0 <= j < subs.Length ==> Placed(subs[j], Base(inSubs, arr, j))) &&
                   heap.next == Base(inSubs, arr, |inSubs|) &&
                   heap.live == old(heap.live) + {arr} + Range(arr + 1, heap.next)
    ensures !ok ==> heap.next == Base(inSubs, arr, FirstInvalid(inSubs)) &&
                    heap.live == old(heap.live) + Range(arr + 1, heap.next)
  {
    var n := |inSubs|;
    arr := heap.Malloc();
    subs := new Slot[n](_ => Unset);
    var i := 0;
    while i < n
      invariant 0 <= i <= n && heap.Valid()
      invariant forall j :: 0 <= j < i ==> ShapeOk(inSubs[j])
      invariant forall j {:trigger subs[j]} :: 0 <= j < i ==>
        subs[j].Filled? && SlotText(subs[j]) == Normalize(inSubs[j]) && Placed(subs[j], Base(inSubs, arr, j))
      invariant heap.next == Base(inSubs, arr, i)
      invariant forall p :: p in heap.live <==> p in old(heap.live) || arr <= p < heap.next
    {
      var sub := inSubs[i];
      if !ShapeOk(sub) {
        assert FirstInvalid(inSubs) == i;
        heap.Free(arr);
        ok := false;
        assert heap.live == old(heap.live) + Range(arr + 1, heap.next);
        return;
      }
      var slot := FillSlot(heap, sub);
      subs[i] := slot;
      i := i + 1;
    }
    ok := true;
    assert subs[..] == subs[..n];
    assert FirstInvalid(inSubs) == n;
    assert Texts(subs[..]) == NormalizeAll(inSubs);
    assert heap.live == old(heap.live) + {arr} + Range(arr + 1, heap.next);
  }

  /** Free one element's strings: recipient (free(NULL) when there is none),
      instance, class. */
  method FreeSlot(heap: Allocator, s: Slot, ghost lo: Ptr, ghost width: nat)
    requires heap.Valid() && Placed(s, lo) && width == (if s.recipient.Some? then 3 else 2)
    requires forall p :: lo <= p < lo + width ==> p in heap.live
    modifies heap
    ensures heap.Valid() && heap.next == old(heap.next)
    ensures forall p :: p in heap.live <==> p in old(heap.live) && !(lo <= p < lo + width)
  {
    heap.FreeNullable(if s.recipient.Some? then Some(s.recipient.value.ptr) else None);
    heap.Free(s.classinst.ptr);
    heap.Free(s.cls.ptr);
  }

  /** The free loop: each element's recipient, instance and class, then the
      array itself (delete[] subs). `inSubs` is the batch the array was
      filled from. */
  method FreeSubscriptions(heap: Allocator, subs: array<Slot>, arr: Ptr, ghost inSubs: seq<JsValue>, ghost before: set<Ptr>)
    requires heap.Valid() && subs.Length == |inSubs|
    requires forall j :: 0 <= j < |inSubs| ==> ShapeOk(inSubs[j])
    requires forall j {:trigger subs[j]} :: 0 <= j < subs.Length ==>
      Placed(subs[j], Base(inSubs, arr, j)) && SlotText(subs[j]) == Normalize(inSubs[j])
    requires forall p :: p in before ==> p < arr
    requires heap.live == before + {arr} + Range(arr + 1, Base(inSubs, arr, |inSubs|))
    modifies heap
    ensures heap.Valid() && heap.next == old(heap.next)
    ensures heap.live == before
  {
    ghost var n := |inSubs|;
    var i := 0;
    while i < subs.Length
      invariant 0 <= i <= n && heap.Valid() && heap.next == old(heap.next)
      invariant Base(inSubs, arr, i) <= Base(inSubs, arr, n)
      invariant forall p :: p in heap.live <==> p in old(heap.live) && !(arr + 1 <= p < Base(inSubs, arr, i))
    {
      var s := subs[i];
      ghost var width := if s.recipient.Some? then 3 else 2;
      assert width == |inSubs[i].elems|;
      PrefixStringsMono(inSubs, i + 1, n);
      FreeSlot(heap, s, Base(inSubs, arr, i), width);
      i := i + 1;
    }
    heap.Free(arr);
    assert heap.live == before;
  }
}
