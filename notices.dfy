/** Received notices and the JavaScript message object the addon builds from
    each one (ZephyrToObject in src/zephyr.cc, zephyr_to_object in zephyr.cc:
    the two are the same code). */
module Notices {

  import opened Js
  import opened Body

  /** ZNotice_Kind_t, with the numbering zephyr.js exports. */
  datatype Kind = Unsafe | Unacked | Acked | Hmack | Hmctl | Servack | Servnak | Clientack | Stat
  {
    function Code(): (c: nat)
      ensures c <= 8
    {
      match this
      case Unsafe => 0
      case Unacked => 1
      case Acked => 2
      case Hmack => 3
      case Hmctl => 4
      case Servack => 5
      case Servnak => 6
      case Clientack => 7
      case Stat => 8
    }
  }

  /** The numbers match the constants zephyr.js exports: each kind has its
      own, and ACKED, the kind sendNotice sets, is 2. */
  lemma KindCodes(k1: Kind, k2: Kind)
    ensures k1 != k2 ==> k1.Code() != k2.Code()
    ensures Acked.Code() == 2 && Unsafe.Code() == 0 && Stat.Code() == 8
  {
  }

  newtype Octet = x: int | 0 <= x < 256

  /** An IPv4 address, octets in network order. */
  datatype InAddr = InAddr(a: Octet, b: Octet, c: Octet, d: Octet)

  /** A notice's unique id: 16 opaque bytes that ZUniqueIdToBuffer copies as they are. */
  datatype Uid = Uid(bytes: seq<bv8>)

  function DigitChar(d: nat): (c: char)
    requires d < 10
    ensures '0' <= c <= '9' && c as int - '0' as int == d
  {
    (d + '0' as int) as char
  }

  /** The decimal digits of `n`, without leading zeros. */
  function Decimal(n: nat): (r: string)
    ensures r != []
    ensures forall k :: 0 <= k < |r| ==> '0' <= r[k] <= '9'
    ensures |r| == 1 <==> n < 10
    ensures |r| > 1 ==> r[0] != '0'
  {
    if n < 10 then [DigitChar(n)] else Decimal(n / 10) + [DigitChar(n % 10)]
  }

  /** The value a string of decimal digits denotes. */
  function DecimalValue(s: string): nat
    requires forall k :: 0 <= k < |s| ==> '0' <= s[k] <= '9'
  {
    if s == [] then 0 else 10 * DecimalValue(s[..|s| - 1]) + (s[|s| - 1] as int - '0' as int)
  }

  /** Decimal writes its argument faithfully: reading the digits back gives it. */
  lemma {:induction false} DecimalRoundTrip(n: nat)
    ensures DecimalValue(Decimal(n)) == n
  {
    if n >= 10 {
      var r := Decimal(n);
      assert r[..|r| - 1] == Decimal(n / 10);
      DecimalRoundTrip(n / 10);
    }
  }

  /** An octet has one to three digits, and no dot among them. */
  lemma {:induction false} DecimalOctet(n: nat)
    requires n < 1000
    ensures n < 10 ==> |Decimal(n)| == 1
    ensures n < 100 ==> |Decimal(n)| <= 2
    ensures 1 <= |Decimal(n)| <= 3 && '.' !in multiset(Decimal(n))
  {
    if n >= 10 {
      DecimalOctet(n / 10);
    }
    assert '.' !in Decimal(n);
  }

  /** Four dot-free pieces joined by dots hold exactly three dots. */
  lemma DotsBetween(a: string, b: string, c: string, d: string)
    requires '.' !in multiset(a) && '.' !in multiset(b) && '.' !in multiset(c) && '.' !in multiset(d)
    ensures multiset(a + "." + b + "." + c + "." + d)['.'] == 3
  {
    assert a + "." + b + "." + c + "." + d == a + (['.'] + b) + (['.'] + c) + (['.'] + d);
    assert multiset(['.'] + b)['.'] == 1 by { assert multiset(['.'] + b) == multiset{'.'} + multiset(b); }
    assert multiset(['.'] + c)['.'] == 1 by { assert multiset(['.'] + c) == multiset{'.'} + multiset(c); }
    assert multiset(['.'] + d)['.'] == 1 by { assert multiset(['.'] + d) == multiset{'.'} + multiset(d); }
    assert multiset(a + (['.'] + b) + (['.'] + c) + (['.'] + d))
        == multiset(a) + multiset(['.'] + b) + multiset(['.'] + c) + multiset(['.'] + d);
  }

  /** inet_ntoa: dotted-decimal form of an address, four octets and three
      dots, between "0.0.0.0" and "255.255.255.255" in length. */
  function DottedQuad(addr: InAddr): (r: string)
    ensures 7 <= |r| <= 15
    ensures multiset(r)['.'] == 3
  {
    var a, b, c, d := Decimal(addr.a as nat), Decimal(addr.b as nat), Decimal(addr.c as nat), Decimal(addr.d as nat);
    DecimalOctet(addr.a as nat);
    DecimalOctet(addr.b as nat);
    DecimalOctet(addr.c as nat);
    DecimalOctet(addr.d as nat);
    DotsBetween(a, b, c, d);
    a + "." + b + "." + c + "." + d
  }

  /** `from_host`: the name gethostbyaddr found (`hostName` is Some exactly
      when it returned an entry with a name), else the literal address. */
  function FromHost(hostName: Option<string>, addr: InAddr): (r: string)
    ensures hostName.Some? ==> r == hostName.value
    ensures hostName.None? ==> r == DottedQuad(addr)
  {
    match hostName
    case Some(name) => name
    case None => DottedQuad(addr)
  }

  /** Without a host name the sender is shown as a dotted address. */
  lemma FromHostDotted(addr: InAddr)
    ensures '.' in FromHost(None, addr)
    ensures FromHost(None, addr)[..|Decimal(addr.a as nat)|] == Decimal(addr.a as nat)
  {
    var r := FromHost(None, addr);
    assert '.' in multiset(r);
    FirstPiece(Decimal(addr.a as nat), Decimal(addr.b as nat), Decimal(addr.c as nat), Decimal(addr.d as nat));
  }

  /** Joining pieces with dots keeps the first piece as a prefix. */
  lemma FirstPiece(a: string, b: string, c: string, d: string)
    ensures (a + "." + b + "." + c + "." + d)[..|a|] == a
  {
    assert a + "." + b + "." + c + "." + d == a + ("." + b + "." + c + "." + d);
  }

  /** The fields of a ZNotice_t the addon reads. C strings are given by their
      contents; `message` is the buffer behind z_message and `otherFields`
      the z_other_fields array. The send time is not modelled. */
  datatype ZNotice = ZNotice(
    packet: string,
    version: string,
    port: int,
    checkedAuth: int,
    authentLen: int,
    asciiAuthent: string,
    cls: string,
    instance: string,
    opcode: string,
    sender: string,
    recipient: string,
    defaultFormat: string,
    numOtherFields: int,
    otherFields: seq<string>,
    kind: Kind,
    auth: int,
    uid: Uid,
    senderAddr: InAddr,
    message: Bytes,
    messageLen: int)

  /** What libzephyr guarantees of a notice it hands out: the buffers hold at
      least as many bytes and entries as the counts say. */
  predicate WellFormed(n: ZNotice)
  {
    n.messageLen <= |n.message| && 0 <= n.numOtherFields <= |n.otherFields|
  }

  /** Every `char*` field of the notice is a C string, so holds no NUL:
      the header fields and the z_other_fields entries in use. */
  predicate CFields(n: ZNotice)
  {
    && NUL !in n.packet && NUL !in n.version && NUL !in n.asciiAuthent
    && NUL !in n.cls && NUL !in n.instance && NUL !in n.opcode
    && NUL !in n.sender && NUL !in n.recipient && NUL !in n.defaultFormat
    && forall i :: 0 <= i < n.numOtherFields && i < |n.otherFields| ==> NUL !in n.otherFields[i]
  }

  /** The JavaScript object passed to the message callback. */
  datatype Message = Message(
    packet: string,
    version: string,
    port: int,
    checkedAuth: int,
    authentLen: int,
    asciiAuthent: string,
    cls: string,
    instance: string,
    opcode: string,
    sender: string,
    recipient: string,
    format: string,
    numOtherFields: int,
    kind: int,
    auth: int,
    uid: Uid,
    fromHost: string,
    body: seq<Bytes>,
    otherFields: Option<seq<string>>)

  /** The fields of an outgoing ZNotice_t that sendNotice sets; every other
      field stays zero from the memset. Header fields are given by the C
      string libzephyr reads from them. */
  datatype OutNotice = OutNotice(
    message: Bytes,
    messageLen: int,
    kind: Kind,
    cls: string,
    instance: string,
    format: string,
    opcode: string,
    recipient: string)

  /** The message bytes the body is cut from: the first z_message_len bytes. */
  function MessageBytes(n: ZNotice): (b: Bytes)
    requires WellFormed(n)
    ensures |b| == if n.messageLen < 0 then 0 else n.messageLen
    ensures b == n.message[..|b|]
  {
    n.message[..if n.messageLen < 0 then 0 else n.messageLen]
  }

  /** `other_fields`: present only for a non-zero count, then exactly that
      many entries in order. */
  function OtherFields(n: ZNotice): (r: Option<seq<string>>)
    requires WellFormed(n)
    ensures r.None? <==> n.numOtherFields == 0
    ensures r.Some? ==> |r.value| == n.numOtherFields &&
                        forall i :: 0 <= i < |r.value| ==> r.value[i] == n.otherFields[i]
  {
    if n.numOtherFields != 0 then Some(n.otherFields[..n.numOtherFields]) else None
  }

  /** The message object for notice `n`. */
  function Decode(n: ZNotice, hostName: Option<string>): Message
    requires WellFormed(n)
  {
    Message(
      n.packet, n.version, n.port, n.checkedAuth, n.authentLen, n.asciiAuthent,
      n.cls, n.instance, n.opcode, n.sender, n.recipient, n.defaultFormat,
      n.numOtherFields, n.kind.Code(), n.auth, n.uid,
      FromHost(hostName, n.senderAddr),
      Split(MessageBytes(n)),
      OtherFields(n))
  }

  /** The fields of a decoded notice: each `char*` field as String::New
      reads it, up to its first NUL (which, for the C strings libzephyr hands
      out, is the whole field); `format` from the default format field; the
      kind as its number; the sender's host; the auxiliary fields. */
  lemma DecodeFields(n: ZNotice, hostName: Option<string>)
    requires WellFormed(n) && CFields(n)
    ensures var m := Decode(n, hostName);
            && m.packet == CString(n.packet) && m.version == CString(n.version)
            && m.port == n.port && m.checkedAuth == n.checkedAuth && m.authentLen == n.authentLen
            && m.asciiAuthent == CString(n.asciiAuthent)
            && m.cls == CString(n.cls) && m.instance == CString(n.instance) && m.opcode == CString(n.opcode)
            && m.sender == CString(n.sender) && m.recipient == CString(n.recipient)
            && m.format == CString(n.defaultFormat)
            && m.numOtherFields == n.numOtherFields && m.kind == n.kind.Code() && m.auth == n.auth && m.uid == n.uid
            && m.fromHost == FromHost(hostName, n.senderAddr)
            && m.otherFields == OtherFields(n)
            && (m.otherFields.Some? ==>
                  forall i :: 0 <= i < |m.otherFields.value| ==> m.otherFields.value[i] == CString(n.otherFields[i]))
  {
    CStringOfNulFree(n.packet);
    CStringOfNulFree(n.version);
    CStringOfNulFree(n.asciiAuthent);
    CStringOfNulFree(n.cls);
    CStringOfNulFree(n.instance);
    CStringOfNulFree(n.opcode);
    CStringOfNulFree(n.sender);
    CStringOfNulFree(n.recipient);
    CStringOfNulFree(n.defaultFormat);
    forall i | 0 <= i < n.numOtherFields
      ensures n.otherFields[i] == CString(n.otherFields[i])
    {
      CStringOfNulFree(n.otherFields[i]);
    }
  }

  /** The body of a decoded notice: the segments of its first messageLen
      bytes, none when that length is not positive, none holding a NUL. */
  lemma DecodeBody(n: ZNotice, hostName: Option<string>)
    requires WellFormed(n)
    ensures Decode(n, hostName).body == Split(MessageBytes(n))
    ensures n.messageLen <= 0 ==> Decode(n, hostName).body == []
    ensures forall k :: 0 <= k < |Decode(n, hostName).body| ==> NUL !in Decode(n, hostName).body[k]
  {
    SplitNulFreeSegments(MessageBytes(n));
  }

  /** The body of a decoded notice is its message bytes, cut at each NUL:
      joining the segments gives the bytes back, less a final NUL. */
  lemma DecodeBodyRecovers(n: ZNotice, hostName: Option<string>)
    requires WellFormed(n)
    ensures var b := MessageBytes(n);
            Join(Decode(n, hostName).body) == if EndsInNul(b) then b[..|b| - 1] else b
  {
    JoinSplit(MessageBytes(n));
  }

  /** A notice whose 11-byte message is "hello\0world" decodes to the body ["hello", "world"]. */
  lemma DecodeHelloWorld(n: ZNotice, hostName: Option<string>)
    requires n.message == "hello\0world" && n.messageLen == 11
    requires 0 <= n.numOtherFields <= |n.otherFields|
    ensures WellFormed(n) && Decode(n, hostName).body == ["hello", "world"]
  {
    assert MessageBytes(n) == "hello\0world";
    SplitHelloWorld();
  }

  /** ZephyrToObject: copy the header fields, resolve the sender, run the
      body split loop and copy the auxiliary fields. */
  method ZephyrToObject(n: ZNotice, hostName: Option<string>) returns (m: Message)
    requires WellFormed(n)
    ensures m == Decode(n, hostName)
  {
    var fromHost := match hostName
      case Some(name) => name
      case None => DottedQuad(n.senderAddr);
    var body := SplitMessage(n.message, n.messageLen);
    var otherFields: Option<seq<string>> := None;
    if n.numOtherFields != 0 {
      var list: seq<string> := [];
      for i := 0 to n.numOtherFields
        invariant list == n.otherFields[..i]
      {
        list := list + [n.otherFields[i]];
      }
      otherFields := Some(list);
    }
    m := Message(
      n.packet, n.version, n.port, n.checkedAuth, n.authentLen, n.asciiAuthent,
      n.cls, n.instance, n.opcode, n.sender, n.recipient, n.defaultFormat,
      n.numOtherFields, n.kind.Code(), n.auth, n.uid,
      fromHost, body, otherFields);
  }
}
