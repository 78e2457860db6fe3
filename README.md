# zephyrnode in Dafny

zephyrnode is a Node.js native addon over the Zephyr instant-messaging client library (libzephyr). The repository holds two generations of the addon:

- `zephyr.cc`, the first generation;
- `src/zephyr.cc`, the second generation.

Both generations do four things:

- They receive notices when the Zephyr socket becomes readable. `OnZephyrFDReady` drains the pending notices. It turns each notice into a JavaScript object, splitting the notice body at its NUL bytes, and hands the object to a callback.
- They subscribe to batches of `[class, instance, recipient?]` triples. `subscribeTo` validates each entry with a fall-through `switch`, copies its strings into a `ZSubscription_t` array, calls `ZSubscribeTo`, and frees everything again.
- They send notices. `sendNotice` builds a `ZNotice_t` from a JavaScript object, filling in defaults for missing fields. It hands the notice to `ZSrvSendNotice` with the packet callback `SendFunction`, and returns the uids of the packets that `ZSendPacket` sent with ZERR_NONE and that wait for an acknowledgement.
- The first generation only: it lists the current subscriptions (`subs`).

The generations differ in places:

- **How the body is built.** The first generation writes `signature NUL message NUL`. The second joins an array of strings with NULs.
- **Header defaults.** They differ, and so does the handling of a property holding `undefined`.
- **How subscription results are reported.** The first generation calls back with null or an error. The second returns, or throws.
- **Empty subscription batches.** The second generation calls `ZSubscribeTo` even for an empty batch.

The model is sequential Dafny:

- **Modules.**
  - The receive path, the body decoder and the uid correlator are the same code in both generations. They live in the shared modules `Body`, `Notices`, `Listener` and `Uids`.
  - The body encoding loops live with their generation. The functions they are proved equal to (`Body.Join`, `Body.SignedBody`) are in `Body`.
  - Subscription validation and the array fill/free loops are also shared (`Subscriptions`).
  - `ZephyrV1` and `ZephyrV2` hold what each generation does on its own.
- **Foreign code.** Calls into libzephyr are given as scripted results:
  - the `ZPending` and `ZReceiveNotice` rounds;
  - the code `ZSubscribeTo` answers;
  - the packets `ZSrvSendNotice` hands to `SendFunction`, with its final code;
  - the replies of `ZRetrieveSubscriptions` and `ZGetSubscriptions`.
- **Memory.** The C heap is a class `Memory.Allocator` that hands out pointers in increasing order and tracks the live set. This states which buffers each operation frees. It also states the exact leak when a subscription entry is rejected.
- **Mutable state.** The module-level `g_wait_on_uids` vector is the field of the class `Uids.UidCorrelator`.
- **Loops.** The source's loops are methods with loop invariants, each proved equal to a specification function. Those functions are:
  - `Body.Split` for the split loop;
  - `Listener.Drain` for the drain loop;
  - `Body.Join` for the join loop;
  - `Subscriptions.NormalizeAll` and the heap ranges for the fill and free loops;
  - `Uids.Recorded` for the uid loop.

The modules, in order:

- `Js` holds JavaScript values, errors and C strings.
- `Memory` holds the heap.
- `Body` holds the codec.
- `Notices` holds received notices.
- `Listener` holds the drain loop.
- `Uids` holds the correlator.
- `Subscriptions` holds the subscription arrays.
- `ZephyrV1` and `ZephyrV2` hold each generation's own operations.

A C string read through `char*`, `strdup` or `strndup` ends at its first NUL. The model writes this as `Js.CString`.

## Model

| member | source | states |
|---|---|---|
| Js.Get | src/zephyr.cc:243 | a missing key reads as undefined; a present key reads as its value |
| Js.IndexOfNul | zephyr.cc:110-112 | memchr/strlen: the position of the first NUL, or the length when there is none |
| Js.NulFrom | src/zephyr.cc:91-93 | the first NUL at or after an offset, or the end; no NUL before it |
| Js.CString | zephyr.cc:64-67 | getstr/strdup copy a prefix of the string that holds no NUL and stops right before the first NUL |
| Js.CStringOfNulFree | zephyr.cc:64-67 | a string without NUL is copied whole |
| Js.ToStr | src/zephyr.cc:246 | String::Utf8Value of a value: a string is itself, undefined and null read as "undefined" and "null", an empty array as "", a one-string array as that string |
| Js.JoinElements | zephyr.cc:356 | an array converted to a string joins its elements with one comma between each pair: at least one character per gap, and exactly one comma per gap when the elements are strings without commas |
| Memory.Allocator.Malloc | zephyr.cc:365 | a fresh pointer above every live one, added to the live set |
| Memory.Allocator.Free | zephyr.cc:368-369 | the pointer leaves the live set, nothing else changes |
| Memory.Allocator.FreeNullable | zephyr.cc:209 | free(NULL) changes nothing; otherwise as Free |
| Body.Split | zephyr.cc:107-116 | no segments exactly for an empty message |
| Body.SplitFrom | src/zephyr.cc:90-97 | the segments from an offset on are empty exactly at the end |
| Body.Join | src/zephyr.cc:277-287 | the joined length is the total segment length plus one NUL per gap |
| Body.JoinNulCount | src/zephyr.cc:282-285 | joining NUL-free segments puts exactly one NUL between each pair and none elsewhere |
| Body.SignedBody | zephyr.cc:364-367 | length \|sig\|+\|msg\|+2, a NUL right after the signature and one at the end |
| Body.SplitFromSuffix | zephyr.cc:109-116 | the segments of a suffix do not depend on what precedes it, once past a NUL |
| Body.SplitNulFreeSegments | zephyr.cc:110-114 | no segment holds a NUL |
| Body.SplitLeadingSegment | zephyr.cc:110-115 | a NUL-free run before a NUL becomes the first segment, the rest splits on its own |
| Body.SplitNulFree | zephyr.cc:110-112 | a final run with no terminating NUL is still emitted |
| Body.SplitAdjacentNuls | zephyr.cc:109-116 | two adjacent NULs yield an empty segment |
| Body.SplitTrailingNul | zephyr.cc:115 | a trailing NUL adds an empty segment only after an empty message or another NUL |
| Body.JoinSplit | src/zephyr.cc:88-97 | joining the segments gives the message back, less a final NUL, so exactly when it does not end in NUL |
| Body.SplitJoin | src/zephyr.cc:277-287 | split undoes join when no segment holds a NUL and the list is empty or its last segment is not |
| Body.JoinOfNothing | src/zephyr.cc:277-287 | join of [] and of [""] are both empty and both decode to no segments |
| Body.JoinSnoc | src/zephyr.cc:282-285 | the loop step: one more element appends a NUL and the element |
| Body.SplitSignedBody | zephyr.cc:362-367 | the first-generation body splits back into the signature and the message, each cut at its first NUL |
| Body.SplitHelloWorld | zephyr.cc:107-116 | "hello\0world" splits into ["hello", "world"] |
| Body.SplitMessage | zephyr.cc:107-116 | the memchr loop builds exactly Split of the first z_message_len bytes, or nothing for a length that is not positive |
| Notices.Kind.Code | src/zephyr.cc:74 | z_kind is exported as a number from 0 to 8 |
| Notices.KindCodes | zephyr.js:11-19 | distinct kinds have distinct numbers; UNSAFE is 0, ACKED 2, STAT 8 |
| Notices.Decimal | src/zephyr.cc:85 | inet_ntoa writes each octet as non-empty decimal digits without a leading zero, a single digit exactly below 10 |
| Notices.DecimalRoundTrip | src/zephyr.cc:85 | those digits denote the octet |
| Notices.DecimalOctet | src/zephyr.cc:85 | an octet takes one to three digits and holds no dot |
| Notices.DotsBetween | src/zephyr.cc:85 | four dot-free octets joined by dots hold exactly three dots |
| Notices.DottedQuad | src/zephyr.cc:85 | the dotted address is 7 to 15 characters long and holds exactly three dots |
| Notices.FromHost | src/zephyr.cc:80-86 | from_host is the name gethostbyaddr found, and the dotted address when it found none |
| Notices.FromHostDotted | src/zephyr.cc:80-86 | without a host name, from_host is the dotted address, starting with the first octet |
| Notices.MessageBytes | src/zephyr.cc:90 | the body is cut from the first z_message_len bytes of the buffer, none for a length that is not positive |
| Notices.OtherFields | src/zephyr.cc:100-105 | other_fields is absent exactly when the count is 0, else exactly that many entries in order |
| Notices.DecodeFields | src/zephyr.cc:60-106 | each header field of the message object is the notice's C string, z_default_format becomes format, the numbers and the uid are copied, kind is the kind's number, from_host as FromHost says, other_fields as OtherFields says with each entry the C string of the notice's entry |
| Notices.DecodeBody | src/zephyr.cc:88-98 | the message body is Split of the message bytes, empty for a length that is not positive, every segment NUL-free |
| Notices.DecodeBodyRecovers | zephyr.cc:107-117 | joining the decoded body gives the message bytes back, less a final NUL |
| Notices.DecodeHelloWorld | zephyr.cc:107-117 | a notice with "hello\0world" and length 11 decodes to the body ["hello", "world"] |
| Notices.ZephyrToObject | src/zephyr.cc:60-106 | the method builds exactly the decoded message object, its split and other_fields loops included |
| Listener.DeliveredFrom | src/zephyr.cc:113-136 | the rounds counted all deliver a message and the one after them does not |
| Listener.Stop | zephyr.cc:133-145 | a stop round adds at most one action, always an error, and none exactly on a zero count |
| Listener.Deliveries | src/zephyr.cc:113-136 | n delivering rounds give 2n actions, none an error |
| Listener.Drain | src/zephyr.cc:113-136 | the cycle holds two actions per delivered message, plus at most one; it has no error exactly when the loop stopped on a zero count |
| Listener.DrainStopsAt | src/zephyr.cc:114-126 | a cycle that first fails to deliver in round k is the k deliveries before it followed by the stop of round k |
| Listener.DeliveredFromIs | src/zephyr.cc:113-127 | the leading run of delivering rounds is the one the loop walks |
| Listener.DeliveriesAlternate | zephyr.cc:147-154 | each delivered message, in receive order, is followed by the freeing of its notice; no error among them |
| Listener.DrainContract | zephyr.cc:132-155 | the trace pairs each message with its ZFreeNotice in receive order; one error (errno, or the receive code) ends it exactly when the loop stopped on a negative count or a failed receive; no message for that round |
| Listener.DrainThreeNotices | zephyr.cc:132-155 | pending counts 3, 2, 1, 0: exactly three message callbacks in order, each followed by ZFreeNotice, nothing else |
| Listener.OnZephyrFDReady | src/zephyr.cc:108-137 | the while(true) loop produces exactly Drain of the transport script |
| Uids.Recorded | zephyr.cc:389-390 | a uid is recorded exactly for a packet sent with ZERR_NONE that waits for an acknowledgement |
| Uids.RecordedAppend | src/zephyr.cc:259-260 | recording is compositional, so send order is kept |
| Uids.RecordedNone | zephyr.cc:389-390 | no awaited packet, no uid |
| Uids.SendOutcome | zephyr.cc:415-426 | sendNotice throws exactly on a failing code, with that code; otherwise it returns the uids |
| Uids.SendOutcomeFromEmpty | src/zephyr.cc:316-321 | from an empty vector a success returns exactly the recorded uids, in order |
| Uids.RecordedExample | src/zephyr.cc:259-260 | the uid of a packet without waitforack, or of a failed send, is not recorded |
| Uids.UidCorrelator.constructor | src/zephyr.cc:250 | the vector starts empty |
| Uids.UidCorrelator.SendFunction | zephyr.cc:382-393 | passes ZSendPacket's code on and appends the uid only on success with waitforack |
| Uids.UidCorrelator.SrvSendNotice | src/zephyr.cc:308 | the vector grows by the recorded uids of the packets, in order |
| Uids.UidCorrelator.Finish | src/zephyr.cc:310-321 | on failure the error and no uids; on success the whole vector in order; empty afterwards on both paths |
| Uids.UidCorrelator.Send | zephyr.cc:405-426 | the send path ends with an empty vector and the SendOutcome result |
| Subscriptions.ShapeOk | zephyr.cc:244-261 | an accepted entry is an array of two or three elements |
| Subscriptions.ShapeOkMeans | src/zephyr.cc:190-207 | the fall-through switch accepts exactly the arrays of length 2 or 3 whose elements are all strings |
| Subscriptions.Normalize | zephyr.cc:267-270 | class from position 0, instance from 1, recipient from 2 exactly for length 3 (else NULL), each cut at its first NUL |
| Subscriptions.FirstInvalid | zephyr.cc:241-265 | the first rejected entry: all before it accepted |
| Subscriptions.FirstInvalidMeansRejected | zephyr.cc:241-265 | a batch passes exactly when every entry passes |
| Subscriptions.NormalizeAll | src/zephyr.cc:214-217 | one triple per entry, in order |
| Subscriptions.Texts | src/zephyr.cc:214-217 | the triples the ZSubscription_t array holds, in order |
| Subscriptions.GetStr | src/zephyr.cc:45-48 | one fresh buffer holding the string cut at its first NUL |
| Subscriptions.FillSlot | zephyr.cc:267-270 | fills one element from the normalised entry: recipient (if any), instance, class, in allocation order |
| Subscriptions.CollectSubscriptions | src/zephyr.cc:184-219 | accepts exactly the valid batches and then holds NormalizeAll; on a rejected entry the array is gone and the strings of the earlier entries stay allocated |
| Subscriptions.FreeSlot | src/zephyr.cc:225-227 | frees exactly the element's strings, free(NULL) for a missing recipient |
| Subscriptions.FreeSubscriptions | zephyr.cc:208-213 | after the free loop and delete[] the live set is what it was before the batch was copied |
| ZephyrV1.SubscribeCleanup | zephyr.cc:216-230 | null on success, else an error carrying the code |
| ZephyrV1.Subscribe | zephyr.cc:232-280 | throws exactly on a malformed entry, with no call; else one call with the whole batch exactly when it is non-empty, and the callback gets null exactly when the batch is empty or the call succeeds |
| ZephyrV1.SubscribeRejectsMalformed | zephyr.cc:262-265 | any malformed entry throws before anything is queued, whatever the others are |
| ZephyrV1.SubscribeWork | zephyr.cc:200-214 | one ZSubscribeTo call exactly when length > 0, every string and the array freed on both outcomes |
| ZephyrV1.SubscribeTo | zephyr.cc:232-280 | matches Subscribe; everything is released unless an entry is rejected, and then exactly the earlier entries' strings leak |
| ZephyrV1.SubValues | zephyr.cc:318-325 | one [class, instance, recipient] array per subscription, in order |
| ZephyrV1.ListSubs | zephyr.cc:292-336 | the retrieve error, or exactly nsubs entries in order |
| ZephyrV1.SubsWork | zephyr.cc:292-308 | on success a fresh array holding the retrieved subscriptions |
| ZephyrV1.SubsCleanup | zephyr.cc:310-336 | reports the error or builds the list, then frees the array |
| ZephyrV1.Subs | zephyr.cc:338-350 | the reply is ListSubs and the heap is as before |
| ZephyrV1.Mkstr | zephyr.cc:354-358 | a present key (even undefined) gives its string, a missing one the default; both cut at the first NUL |
| ZephyrV1.EncodeV1 | zephyr.cc:361-376 | the body splits back into [signature, message], its length is their lengths plus 2, the kind is ACKED, the headers are the mkstr values |
| ZephyrV1.MkstrDefault | zephyr.cc:357 | a missing key gives the NUL-free default whole |
| ZephyrV1.EncodeV1Defaults | zephyr.cc:362-375 | with no keys: body of two NULs, class MESSAGE, instance PERSONAL, empty format, opcode and recipient, kind ACKED |
| ZephyrV1.MkstrAlloc | zephyr.cc:354-358 | one fresh buffer holding Mkstr |
| ZephyrV1.StrCpy | zephyr.cc:366-367 | copies the string and its NUL, nothing else in the buffer changes |
| ZephyrV1.LayOutBody | zephyr.cc:365-367 | the buffer is signature NUL message NUL |
| ZephyrV1.CopyBody | zephyr.cc:362-369 | the body is SignedBody of the mkstr values, only its buffer stays allocated |
| ZephyrV1.CopyHeaders | zephyr.cc:370-375 | one buffer per header field, in order, each holding its mkstr value |
| ZephyrV1.ObjectToZephyr | zephyr.cc:361-376 | the notice is EncodeV1 and exactly six buffers are added |
| ZephyrV1.FreeNoticeBuffers | zephyr.cc:407-413 | the six frees restore the heap |
| ZephyrV1.SendNotice | zephyr.cc:395-427 | sends EncodeV1, frees every buffer, empties the vector, returns SendOutcome |
| ZephyrV2.Subscribe | src/zephyr.cc:176-236 | a malformed entry throws the TypeError with no call; otherwise one call with the whole batch on port 0, and it throws exactly when that call fails, carrying the code |
| ZephyrV2.SubscribeEmptyBatch | src/zephyr.cc:222 | an empty batch still goes to ZSubscribeTo and its code decides; the first generation makes no call and reports success |
| ZephyrV2.SubscribeAgreesWithV1 | src/zephyr.cc:186-217 | both generations reject the same batches and send the same triples |
| ZephyrV2.SubscribeTo | src/zephyr.cc:176-236 | matches Subscribe; after a call every string and the array are freed before the result is inspected; on a rejected entry the earlier entries' strings leak |
| ZephyrV2.GetStringProperty | src/zephyr.cc:240-248 | the default exactly when the property reads as undefined, else its string |
| ZephyrV2.BodyStrings | src/zephyr.cc:278-286 | one string per array element, in order, each the element's String::Utf8Value; nothing for a body that is not an array |
| ZephyrV2.EncodeV2 | src/zephyr.cc:276-306 | message is the join of the body strings, z_message_len its length, kind ACKED, headers the property values read as C strings |
| ZephyrV2.BodyRoundTrip | src/zephyr.cc:277-287 | an array body of NUL-free strings, the last one not empty, splits back into exactly those strings |
| ZephyrV2.NonArrayBodyIsEmpty | src/zephyr.cc:279 | a body that is not an array sends an empty message of length 0 |
| ZephyrV2.NulInElementSplits | src/zephyr.cc:281-285 | an element holding a NUL arrives as two segments |
| ZephyrV2.FinalEmptyElementDropped | src/zephyr.cc:281-285 | a final empty element does not arrive |
| ZephyrV2.EncodeV2Defaults | src/zephyr.cc:289-301 | every property undefined: empty message, class MESSAGE, instance PERSONAL, format http://zephyr.1ts.org/wiki/df, empty opcode and recipient, kind ACKED |
| ZephyrV2.HeaderAgreesWithV1 | src/zephyr.cc:243-245 | given the same default, a header reads the same in both generations unless the property holds undefined, when V1 sends "undefined" and V2 the default |
| ZephyrV2.FormatDefaultsDiffer | src/zephyr.cc:291-292 | the defaults differ for format: with the key missing V1 sends "" (zephyr.cc:373) and V2 the wiki URL |
| ZephyrV2.SendThenDecode | src/zephyr.cc:88-98 | a sent body that allows the round trip is decoded by the receiving side into the strings it was built from |
| ZephyrV2.AssembleBody | src/zephyr.cc:276-287 | the push_back/append loop builds exactly the join of the element strings |
| ZephyrV2.SendNotice | src/zephyr.cc:265-322 | sends EncodeV2, empties the vector, returns SendOutcome |

## Left out

- V8 and Node glue is not modelled: handles, scopes, the PROPERTY/METHOD/THROW macros, the argument-count and argument-type checks, and `init`/`Init`. JavaScript input is the datatype `Js.JsValue`, and an object is a map from key to value.
- `setMessageCallback` and `setNoticeCallback` only store the callback. The callback is implicit in the `Listener` trace.
- `InstallZephyrListener` registers the socket with libuv. That is I/O setup.
- The QUEUE macro of the first generation runs work and then cleanup in sequence. The model calls the two in sequence.
- libzephyr is given only as scripted results:
  - `ZPending` and `ZReceiveNotice` results with the errno they leave;
  - the code of `ZSubscribeTo`;
  - the packets of `ZSrvSendNotice` and its final code;
  - `ZRetrieveSubscriptions`/`ZGetSubscriptions`.
  Fragmentation, authentication and the network are not modelled.
- `gethostbyaddr` is a parameter, the host name it found or none. `inet_ntoa` is the dotted-decimal function.
- The time field (`z_time.tv_sec * 1000.0`) is floating-point Date conversion and is absent from the message object.
- The text of `error_message(code)` is a libzephyr table. An error carries only its code (`JsError.ComErr`).
- ZUniqueIdToBuffer copies bytes; a uid is an opaque value.
- UTF-8 conversion by String::Utf8Value and String::New is treated as the identity: characters stand for bytes.
- ZephyrV1.ListSubs: a failing `ZGetSubscriptions` leaves the array NULL with the code still ZERR_NONE, and `subs_cleanup` would then read through it. That case is excluded by the precondition ListScripted rather than modelled.
- ZephyrV2.SendNotice: the five header `std::string` values and the body string free themselves, so the heap is not modelled on this path.
- The heap hands out pointers in increasing order. Reuse of freed addresses is not modelled.
- The JavaScript EventEmitter wrapper in zephyr.js is not part of this model; only its kind constants are (Notices.KindCodes). test.js is not part of this model either: it calls functions the addon does not export.
- The C library's allocators are assumed to succeed: `Memory.Allocator.Malloc` always returns a fresh pointer. The source never checks the results of `strndup`, `strdup` or `malloc` (zephyr.cc:63-66, 365), so an allocation failure would make it write through NULL, and that case is not modelled.
- ZephyrV1.EncodeV1: z_message_len is the unbounded length of the signed body. The source stores `strlen(signature) + strlen(message) + 2` (a `size_t`) in the `int` field and mallocs that int (zephyr.cc:364-365). The truncation of a body of 2^31 bytes or more, and the malloc of the truncated length, are not modelled.
- ZephyrV2.EncodeV2: z_message_len is the unbounded length of the body. The source stores `body.length()` (a `size_t`) in an `int` field (src/zephyr.cc:299). A body of 2^31 bytes or more would be truncated there, and that is not modelled.
- Notices.Decode copies each `char*` header field whole. String::New stops at the first NUL, so the two agree only for fields that hold no NUL. The same holds for the `z_other_fields` entries, which `OtherFields` copies whole. Notices.DecodeFields states the agreement under the predicate `CFields`, which says that every header field and every `z_other_fields` entry in use is a C string.
