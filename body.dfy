/** The notice body codec. A notice's message is a byte string; the addon
    reads it as a list of segments separated by NUL bytes, and writes it
    either by joining segments with NULs (src/zephyr.cc) or as
    `signature NUL message NUL` (zephyr.cc). */
module Body {

  import opened Js

  type Bytes = seq<char>

  /** The segments of a message: one per NUL-delimited run, a final run
      without a terminating NUL included, a final NUL adding nothing. */
  function Split(b: Bytes): (r: seq<Bytes>)
    ensures r == [] <==> b == []
  {
    SplitFrom(b, 0)
  }

  /** The segments of b from position k on: the run up to the next NUL (or
      to the end), then the segments after that NUL. */
  function SplitFrom(b: Bytes, k: nat): (r: seq<Bytes>)
    ensures r == [] <==> k >= |b|
    decreases |b| - k
  {
    if k >= |b| then []
    else
      var j := NulFrom(b, k);
      [b[k..j]] + SplitFrom(b, j + 1)
  }

  /** Total length of all segments. */
  function TotalLength(segs: seq<Bytes>): nat
  {
    if segs == [] then 0 else |segs[0]| + TotalLength(segs[1..])
  }

  /** The segments with one NUL between each pair, none before or after. */
  function Join(segs: seq<Bytes>): (r: Bytes)
    ensures |r| == TotalLength(segs) + (if segs == [] then 0 else |segs| - 1)
  {
    if |segs| == 0 then []
    else if |segs| == 1 then segs[0]
    else segs[0] + [NUL] + Join(segs[1..])
  }

  /** The zephyr.cc body: the signature and the message, each as a C string,
      each followed by a NUL. */
  function SignedBody(signature: string, message: string): (r: Bytes)
    ensures |r| == |CString(signature)| + |CString(message)| + 2
    ensures r[|CString(signature)|] == NUL && r[|r| - 1] == NUL
  {
    CString(signature) + [NUL] + CString(message) + [NUL]
  }

  function EndsInNul(b: Bytes): bool
  {
    b != [] && b[|b| - 1] == NUL
  }

  /** NulFrom's result is the one position that fits its description. */
  lemma NulFromIs(b: Bytes, k: nat, j: nat)
    requires k <= j <= |b|
    requires forall i :: k <= i < j ==> b[i] != NUL
    requires j < |b| ==> b[j] == NUL
    ensures NulFrom(b, k) == j
  {
  }

  /** A slice of p + y that lies within y. */
  lemma SliceOfSuffix(p: Bytes, y: Bytes, k: nat, j: nat)
    requires k <= j <= |y|
    ensures (p + y)[|p| + k..|p| + j] == y[k..j]
  {
  }

  /** A slice of b + t that lies within b. */
  lemma SliceOfPrefix(b: Bytes, t: Bytes, k: nat, j: nat)
    requires k <= j <= |b|
    ensures (b + t)[k..j] == b[k..j]
  {
  }

  /** The first NUL of p + y past p is the first NUL of y, shifted. */
  lemma NulFromSuffix(p: Bytes, y: Bytes, k: nat)
    requires k <= |y|
    ensures NulFrom(p + y, |p| + k) == |p| + NulFrom(y, k)
  {
    var j := NulFrom(y, k);
    assert forall i :: |p| + k <= i < |p| + j ==> (p + y)[i] == y[i - |p|];
    NulFromIs(p + y, |p| + k, |p| + j);
  }

  /** Splitting p + y past p is splitting y: no segment reaches back into p. */
  lemma {:induction false} SplitFromSuffix(p: Bytes, y: Bytes, k: nat)
    requires k <= |y|
    ensures SplitFrom(p + y, |p| + k) == SplitFrom(y, k)
    decreases |y| - k
  {
    if k < |y| {
      var j := NulFrom(y, k);
      if j < |y| {
        SplitFromSuffix(p, y, j + 1);
        NulFromSuffix(p, y, k);
        assert NulFrom(p + y, |p| + k) + 1 == |p| + (j + 1);
        SuffixCut(p, y, k);
      } else {
        SuffixLast(p, y, k);
      }
    }
  }

  /** The step of SplitFromSuffix when y has a NUL at or after k. */
  lemma SuffixCut(p: Bytes, y: Bytes, k: nat)
    requires k < |y| && NulFrom(y, k) < |y|
    requires SplitFrom(p + y, NulFrom(p + y, |p| + k) + 1) == SplitFrom(y, NulFrom(y, k) + 1)
    ensures SplitFrom(p + y, |p| + k) == SplitFrom(y, k)
  {
    var b := p + y;
    var i := |p| + k;
    assert i < |b|;
    assert b[i..NulFrom(b, i)] == y[k..NulFrom(y, k)] by { SuffixSegment(p, y, k); }
    SameStep(b, i, y, k);
  }

  /** Two positions whose segments and whose remaining splits agree split alike. */
  lemma SameStep(b: Bytes, i: nat, c: Bytes, j: nat)
    requires i < |b| && j < |c|
    requires b[i..NulFrom(b, i)] == c[j..NulFrom(c, j)]
    requires SplitFrom(b, NulFrom(b, i) + 1) == SplitFrom(c, NulFrom(c, j) + 1)
    ensures SplitFrom(b, i) == SplitFrom(c, j)
  {
    SplitFromStep(b, i);
    SplitFromStep(c, j);
  }

  /** The segment of p + y that starts past p is the segment of y. */
  lemma SuffixSegment(p: Bytes, y: Bytes, k: nat)
    requires k < |y|
    ensures (p + y)[|p| + k..NulFrom(p + y, |p| + k)] == y[k..NulFrom(y, k)]
  {
    NulFromSuffix(p, y, k);
    SliceOfSuffix(p, y, k, NulFrom(y, k));
  }

  /** The step of SplitFromSuffix when y has no NUL at or after k. */
  lemma SuffixLast(p: Bytes, y: Bytes, k: nat)
    requires k < |y| && NulFrom(y, k) == |y|
    ensures SplitFrom(p + y, |p| + k) == SplitFrom(y, k)
  {
    NulFromSuffix(p, y, k);
    SliceOfSuffix(p, y, k, |y|);
  }

  /** One step of SplitFrom: the run up to the next NUL, then the rest. */
  lemma SplitFromStep(b: Bytes, k: nat)
    requires k < |b|
    ensures SplitFrom(b, k) == [b[k..NulFrom(b, k)]] + SplitFrom(b, NulFrom(b, k) + 1)
  {
  }

  /** No segment holds a NUL. */
  lemma {:induction false} SplitFromNulFree(b: Bytes, k: nat)
    ensures forall s :: s in SplitFrom(b, k) ==> NUL !in s
    decreases |b| - k
  {
    if k < |b| {
      SplitFromNulFree(b, NulFrom(b, k) + 1);
    }
  }

  lemma SplitNulFreeSegments(b: Bytes)
    ensures forall i :: 0 <= i < |Split(b)| ==> NUL !in Split(b)[i]
  {
    SplitFromNulFree(b, 0);
    assert forall i :: 0 <= i < |Split(b)| ==> Split(b)[i] in Split(b);
  }

  /** A leading NUL-free run followed by a NUL becomes the first segment. */
  lemma SplitLeadingSegment(x: Bytes, y: Bytes)
    requires NUL !in x
    ensures Split(x + [NUL] + y) == [x] + Split(y)
  {
    var b := x + [NUL] + y;
    NulFromIs(b, 0, |x|);
    assert b[0..|x|] == x;
    SplitFromSuffix(x + [NUL], y, 0);
  }

  /** A non-empty NUL-free byte string is a single segment. */
  lemma SplitNulFree(x: Bytes)
    requires NUL !in x && x != []
    ensures Split(x) == [x]
  {
    NulFromIs(x, 0, |x|);
    assert x[0..|x|] == x;
  }

  /** Two adjacent NULs yield an empty segment. */
  lemma SplitAdjacentNuls(x: Bytes, y: Bytes)
    requires NUL !in x
    ensures Split(x + [NUL, NUL] + y) == [x, []] + Split(y)
  {
    AdjacentNulsShape(x, y);
    SplitLeadingSegment(x, [] + [NUL] + y);
    SplitLeadingSegment([], y);
    ConsTwo(x, [], Split(y));
  }

  lemma AdjacentNulsShape(x: Bytes, y: Bytes)
    ensures x + [NUL, NUL] + y == x + [NUL] + ([] + [NUL] + y)
  {
  }

  lemma ConsTwo<T>(a: T, b: T, t: seq<T>)
    ensures [a] + ([b] + t) == [a, b] + t
  {
  }

  lemma AppendAssoc<T>(a: seq<T>, b: seq<T>, c: seq<T>)
    ensures a + (b + c) == (a + b) + c
  {
  }

  /** A NUL appended to a message adds an empty segment only when the message
      is empty or already ends in a NUL; otherwise it changes nothing. */
  lemma SplitTrailingNul(b: Bytes)
    ensures Split(b + [NUL]) == if b == [] || EndsInNul(b) then Split(b) + [[]] else Split(b)
  {
    SplitFromTrailingNul(b, 0);
  }

  lemma {:induction false} SplitFromTrailingNul(b: Bytes, k: nat)
    requires k <= |b|
    ensures SplitFrom(b + [NUL], k) == if k == |b| || EndsInNul(b) then SplitFrom(b, k) + [[]] else SplitFrom(b, k)
    decreases |b| - k
  {
    var c := b + [NUL];
    var j := NulFrom(b, k);
    NulFromIs(c, k, j);
    SliceOfPrefix(b, [NUL], k, j);
    if j == |b| {
      assert SplitFrom(c, j + 1) == [];
      if k == |b| {
        assert c[k..j] == [];
      } else {
        assert b[|b| - 1] != NUL;
      }
    } else {
      SplitFromTrailingNul(b, j + 1);
      assert j + 1 == |b| ==> EndsInNul(b);
      AppendAssoc([b[k..j]], SplitFrom(b, j + 1), [[]]);
    }
  }

  /** Joining the segments gives the message back, less a final NUL. */
  lemma JoinSplit(b: Bytes)
    ensures Join(Split(b)) == if EndsInNul(b) then b[..|b| - 1] else b
  {
    JoinSplitFrom(b, 0);
    if EndsInNul(b) {
      assert b[0..|b| - 1] == b[..|b| - 1];
    } else {
      assert b[0..|b|] == b;
    }
  }

  /** Where the joined segments of b from k end: before a final NUL, if any. */
  function JoinEnd(b: Bytes, k: nat): nat
  {
    if EndsInNul(b) && k < |b| then |b| - 1 else |b|
  }

  lemma {:induction false} JoinSplitFrom(b: Bytes, k: nat)
    requires k <= |b|
    ensures k <= JoinEnd(b, k) && Join(SplitFrom(b, k)) == b[k..JoinEnd(b, k)]
    decreases |b| - k
  {
    if k < |b| {
      var j := NulFrom(b, k);
      if j == |b| {
        JoinLast(b, k);
      } else if j + 1 == |b| {
        JoinFinalNul(b, k);
      } else {
        JoinSplitFrom(b, j + 1);
        JoinCut(b, k);
      }
    }
  }

  /** The last segment, with no NUL after it. */
  lemma JoinLast(b: Bytes, k: nat)
    requires k < |b| && NulFrom(b, k) == |b|
    ensures k <= JoinEnd(b, k) && Join(SplitFrom(b, k)) == b[k..JoinEnd(b, k)]
  {
    SplitFromStep(b, k);
    assert b[|b| - 1] != NUL;
  }

  /** The last segment, ended by the final NUL of b. */
  lemma JoinFinalNul(b: Bytes, k: nat)
    requires k < |b| && NulFrom(b, k) + 1 == |b|
    ensures k <= JoinEnd(b, k) && Join(SplitFrom(b, k)) == b[k..JoinEnd(b, k)]
  {
    SplitFromStep(b, k);
    assert EndsInNul(b);
  }

  /** A segment followed by more segments. */
  lemma JoinCut(b: Bytes, k: nat)
    requires k < |b| && NulFrom(b, k) + 1 < |b|
    requires Join(SplitFrom(b, NulFrom(b, k) + 1)) == b[NulFrom(b, k) + 1..JoinEnd(b, NulFrom(b, k) + 1)]
    ensures k <= JoinEnd(b, k) && Join(SplitFrom(b, k)) == b[k..JoinEnd(b, k)]
  {
    var j := NulFrom(b, k);
    SplitFromStep(b, k);
    JoinCons(b[k..j], SplitFrom(b, j + 1));
    assert JoinEnd(b, j + 1) == JoinEnd(b, k);
    SliceAroundNul(b, k, j, JoinEnd(b, k));
  }

  /** A slice of b with a NUL at j inside it. */
  lemma SliceAroundNul(b: Bytes, k: nat, j: nat, e: nat)
    requires k <= j < e <= |b| && b[j] == NUL
    ensures b[k..e] == b[k..j] + [NUL] + b[j + 1..e]
  {
  }

  /** One segment in front of a non-empty list: the segment, a NUL, the rest. */
  lemma JoinCons(x: Bytes, rest: seq<Bytes>)
    requires rest != []
    ensures Join([x] + rest) == x + [NUL] + Join(rest)
  {
    assert ([x] + rest)[1..] == rest;
  }

  /** Splitting undoes joining when no segment holds a NUL and the list does
      not end in an empty segment. */
  lemma {:induction false} SplitJoin(segs: seq<Bytes>)
    requires forall k :: 0 <= k < |segs| ==> NUL !in segs[k]
    requires segs == [] || segs[|segs| - 1] != []
    ensures Split(Join(segs)) == segs
  {
    if |segs| == 1 {
      SplitNulFree(segs[0]);
    } else if |segs| > 1 {
      SplitJoin(segs[1..]);
      SplitLeadingSegment(segs[0], Join(segs[1..]));
    }
  }

  /** Both the empty list and the list of one empty segment encode to a
      message that decodes to no segments. */
  lemma JoinOfNothing()
    ensures Join([]) == [] && Join([[]]) == []
    ensures Split(Join([])) == [] && Split(Join([[]])) == []
  {
  }

  /** Joining NUL-free segments puts exactly one NUL between each pair and
      none anywhere else. */
  lemma {:induction false} JoinNulCount(segs: seq<Bytes>)
    requires forall k :: 0 <= k < |segs| ==> NUL !in segs[k]
    ensures multiset(Join(segs))[NUL] == if segs == [] then 0 else |segs| - 1
  {
    if |segs| == 1 {
      assert NUL !in multiset(segs[0]);
    } else if |segs| > 1 {
      JoinNulCount(segs[1..]);
      assert NUL !in multiset(segs[0]);
      assert multiset(Join(segs)) == multiset(segs[0]) + multiset([NUL]) + multiset(Join(segs[1..]));
    }
  }

  /** Appending one segment to a non-empty list appends a NUL and the segment. */
  lemma JoinSnoc(segs: seq<Bytes>, x: Bytes)
    requires segs != []
    ensures Join(segs + [x]) == Join(segs) + [NUL] + x
    decreases |segs|
  {
    if |segs| > 1 {
      assert (segs + [x])[1..] == segs[1..] + [x];
      JoinSnoc(segs[1..], x);
    }
  }

  /** The zephyr.cc body decodes to the signature and the message, each cut
      at its first NUL. */
  lemma SplitSignedBody(signature: string, message: string)
    ensures Split(SignedBody(signature, message)) == [CString(signature), CString(message)]
  {
    var s, m := CString(signature), CString(message);
    assert SignedBody(signature, message) == s + [NUL] + (m + [NUL]);
    SplitLeadingSegment(s, m + [NUL]);
    SplitLeadingSegment(m, []);
    assert m + [NUL] == m + [NUL] + [];
  }

  /** A two-segment message: "hello\0world" splits into ["hello", "world"]. */
  lemma SplitHelloWorld()
    ensures Split("hello\0world") == ["hello", "world"]
  {
    assert "hello\0world" == "hello" + [NUL] + "world";
    SplitLeadingSegment("hello", "world");
    SplitNulFree("world");
  }

  /** The first len bytes of message, sliced again inside them. */
  lemma SliceOfTake(message: Bytes, len: nat, k: nat, j: nat)
    requires k <= j <= len <= |message|
    ensures message[..len][k..j] == message[k..j]
  {
  }

  /** The body loop of ZephyrToObject: from offset 0, memchr for the next
      NUL within the first len bytes, take the run before it as the next
      segment and carry on after it, until offset reaches len. */
  method SplitMessage(message: Bytes, len: int) returns (body: seq<Bytes>)
    requires len <= |message|
    ensures body == Split(message[..if len < 0 then 0 else len])
  {
    ghost var w := message[..if len < 0 then 0 else len];
    body := [];
    var offset := 0;
    while offset < len
      invariant 0 <= offset
      invariant body + SplitFrom(w, offset) == Split(w)
      decreases len - offset
    {
      var nulOffset := NulFrom(message[..len], offset);
      SliceOfTake(message, len, offset, nulOffset);
      AppendAssoc(body, [message[offset..nulOffset]], SplitFrom(w, nulOffset + 1));
      body := body + [message[offset..nulOffset]];
      offset := nulOffset + 1;
    }
    assert body + [] == body;
  }
}
