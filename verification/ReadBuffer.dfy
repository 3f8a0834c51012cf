/** The receive buffer of kernel/net/impl/bufferimpl.h. */
module ReadBuffers {
  import opened Bytes

  /** The contents of a receive buffer: `data` is the whole allocation, of which the first
      `length` octets were received and the first `part` octets may hold the request head. */
  datatype Received = Received(data: bytes, length: nat, part: nat)
  {
    predicate Valid() {
      length <= |data| && part <= |data|
    }

    /** `Head()`: spans `part` octets, however many were received. */
    function Head(): bytes
      requires Valid()
    {
      data[..part]
    }

    /** `Content(offset)`: the received octets from `offset` on, none when it lies past them. */
    function Content(offset: nat): bytes
      requires Valid()
    {
      data[if offset < length then offset else length..length]
    }
  }

  /** One answer of the operating system to `recv` followed by `ioctl(FIONREAD)`: the octets
      waiting in the socket (or the errno of a failed call), and what FIONREAD reports. */
  datatype Answer = Failed(errno: nat) | Arrived(chunk: bytes, polled: bool, pending: int)

  /** The octets a `recv` of at most `room` octets takes from the waiting ones. */
  function Taken(chunk: bytes, room: nat): (c: bytes)
    ensures c <= chunk && |c| == if |chunk| <= room then |chunk| else room
  {
    if |chunk| <= room then chunk else chunk[..room]
  }

  /** The loop goes on: something was received, and more is pending that leaves room. */
  predicate GoesOn(a: Answer, offset: nat, max: nat)
    requires offset <= max
  {
    && a.Arrived?
    && Taken(a.chunk, max - offset) != []
    && a.polled
    && 0 < a.pending
    && offset + |Taken(a.chunk, max - offset)| + a.pending < max
  }

  /** The chunks the loop stores when it stands at `offset`, given the answers to come. */
  function Stored(answers: seq<Answer>, offset: nat, max: nat): (r: seq<bytes>)
    requires offset <= max
    ensures offset + |Concat(r)| <= max
  {
    if answers == [] || answers[0].Failed? then []
    else
      var c := Taken(answers[0].chunk, max - offset);
      if GoesOn(answers[0], offset, max) then
        var rest := Stored(answers[1..], offset + |c|, max);
        ConcatCons(c, rest);
        [c] + rest
      else [c]
  }

  /** The value `Read` returns: the errno of the last call when that call failed. */
  function ReadError(answers: seq<Answer>, offset: nat, max: nat): nat
    requires offset <= max
  {
    if answers == [] then 0
    else if answers[0].Failed? then answers[0].errno
    else if GoesOn(answers[0], offset, max) then
      ReadError(answers[1..], offset + |Taken(answers[0].chunk, max - offset)|, max)
    else 0
  }

  function Concat(cs: seq<bytes>): bytes {
    if cs == [] then [] else cs[0] + Concat(cs[1..])
  }

  lemma ConcatCons(c: bytes, cs: seq<bytes>)
    ensures Concat([c] + cs) == c + Concat(cs)
  {
    assert ([c] + cs)[1..] == cs;
  }

  /** The octets the peer sends, in order, as far as the answers show them. */
  function Stream(answers: seq<Answer>): bytes {
    if answers == [] then []
    else (if answers[0].Arrived? then answers[0].chunk else []) + Stream(answers[1..])
  }

  lemma PrefixConcat(a: bytes, x: bytes, y: bytes)
    ensures x <= y ==> a + x <= a + y
    ensures x <= a ==> x <= a + y
  {
  }

  /** Whatever the socket does, what is stored is a prefix of the peer's stream: no octet is
      lost, repeated or reordered before the point where reading stops. */
  lemma {:induction false} StoredIsStreamPrefix(answers: seq<Answer>, offset: nat, max: nat)
    requires offset <= max
    ensures Concat(Stored(answers, offset, max)) <= Stream(answers)
    decreases |answers|
  {
    if answers != [] && answers[0].Arrived? {
      var a, rest := answers[0], answers[1..];
      var c := Taken(a.chunk, max - offset);
      if GoesOn(a, offset, max) {
        assert c == a.chunk;
        StoredIsStreamPrefix(rest, offset + |c|, max);
        ConcatCons(c, Stored(rest, offset + |c|, max));
        PrefixConcat(c, Concat(Stored(rest, offset + |c|, max)), Stream(rest));
      } else {
        ConcatCons(c, []);
        PrefixConcat(a.chunk, c, Stream(rest));
      }
    }
  }

  /** How many octets the first `n` chunks bring. */
  function Total(cs: seq<bytes>, n: nat): nat
    requires n <= |cs|
  {
    if n == 0 then 0 else |cs[0]| + Total(cs[1..], n - 1)
  }

  /** The loop has a reason to stop after the answer `a`, with `filled` octets in the buffer:
      nothing came, FIONREAD failed or reported nothing, or what it reported would reach the
      end of the buffer. */
  predicate StopsAfter(a: Answer, filled: nat, max: nat) {
    a.Arrived? && (a.chunk == [] || !a.polled || a.pending <= 0 || filled + a.pending >= max)
  }

  lemma GoesOnIff(a: Answer, offset: nat, max: nat)
    requires offset < max && a.Arrived?
    ensures GoesOn(a, offset, max) <==> !StopsAfter(a, offset + |Taken(a.chunk, max - offset)|, max)
  {
  }

  lemma TotalCons(c: bytes, rest: seq<bytes>, n: nat)
    requires n <= |rest|
    ensures Total([c] + rest, n + 1) == |c| + Total(rest, n) && Total([c] + rest, 0) == 0
  {
    assert ([c] + rest)[1..] == rest;
  }

  /** Each stored chunk is the next answer's, cut to the room that is left. */
  lemma {:induction false} ChunksInOrder(answers: seq<Answer>, offset: nat, max: nat, i: nat)
    requires offset < max && i < |Stored(answers, offset, max)|
    ensures var cs := Stored(answers, offset, max);
            && i < |answers| && answers[i].Arrived? && offset + Total(cs, i) < max
            && cs[i] == Taken(answers[i].chunk, max - offset - Total(cs, i))
    decreases i
  {
    StoredArrived(answers, offset, max);
    StoredStep(answers, offset, max);
    hide Taken;
    hide GoesOn;
    hide Stored;
    var c := Taken(answers[0].chunk, max - offset);
    if i == 0 {
      TotalNone(Stored(answers, offset, max));
    } else {
      var rest := Stored(answers[1..], offset + |c|, max);
      ChunksInOrder(answers[1..], offset + |c|, max, i - 1);
      TotalCons(c, rest, i - 1);
      assert answers[1..][i - 1] == answers[i];
    }
  }

  lemma StoredArrived(answers: seq<Answer>, offset: nat, max: nat)
    requires offset <= max && Stored(answers, offset, max) != []
    ensures answers != [] && answers[0].Arrived?
  {
  }

  lemma TotalNone(cs: seq<bytes>)
    ensures Total(cs, 0) == 0
  {
  }

  /** The loop has no reason to stop after any chunk but the last. */
  lemma {:induction false} NoReasonBefore(answers: seq<Answer>, offset: nat, max: nat, i: nat)
    requires offset < max && i + 1 < |Stored(answers, offset, max)|
    ensures i < |answers| && !StopsAfter(answers[i], offset + Total(Stored(answers, offset, max), i + 1), max)
    decreases i
  {
    var c := Taken(answers[0].chunk, max - offset);
    var rest := Stored(answers[1..], offset + |c|, max);
    assert Stored(answers, offset, max) == [c] + rest;
    TotalCons(c, rest, i);
    GoesOnIff(answers[0], offset, max);
    hide Taken;
    hide StopsAfter;
    if i > 0 {
      NoReasonBefore(answers[1..], offset + |c|, max, i - 1);
    } else {
      assert Total(rest, 0) == 0;
    }
  }

  /** It stops after the last one because it has a reason there, because the next call failed,
      or because there is no further answer. The error is the errno of that failed call, and
      0 otherwise. */
  lemma {:induction false} StopsExactly(answers: seq<Answer>, offset: nat, max: nat)
    requires offset < max
    ensures var cs := Stored(answers, offset, max);
            var reason := 0 < |cs| <= |answers| && StopsAfter(answers[|cs| - 1], offset + Total(cs, |cs|), max);
            && |cs| <= |answers|
            && (reason || |cs| == |answers| || answers[|cs|].Failed?)
            && ReadError(answers, offset, max) == if !reason && |cs| < |answers| then (if answers[|cs|].Failed? then answers[|cs|].errno else 0) else 0
    decreases |answers|
  {
    hide Taken;
    hide StopsAfter;
    hide GoesOn;
    if answers == [] || answers[0].Failed? {
      assert Stored(answers, offset, max) == [];
    } else {
      var c := Taken(answers[0].chunk, max - offset);
      StoredStep(answers, offset, max);
      GoesOnIff(answers[0], offset, max);
      if GoesOn(answers[0], offset, max) {
        var rest := Stored(answers[1..], offset + |c|, max);
        StopsExactly(answers[1..], offset + |c|, max);
        hide Stored;
        hide ReadError;
        TotalCons(c, rest, |rest|);
        TotalCons(c, rest, 0);
      } else {
        hide Stored;
        TotalCons(c, [], 0);
        assert [c] + [] == [c];
      }
    }
  }

  lemma StoredStep(answers: seq<Answer>, offset: nat, max: nat)
    requires offset < max && answers != [] && answers[0].Arrived?
    ensures var c := Taken(answers[0].chunk, max - offset);
            && Stored(answers, offset, max)
               == (if GoesOn(answers[0], offset, max) then [c] + Stored(answers[1..], offset + |c|, max) else [c])
            && ReadError(answers, offset, max)
               == (if GoesOn(answers[0], offset, max) then ReadError(answers[1..], offset + |c|, max) else 0)
            && (GoesOn(answers[0], offset, max) ==> offset + |c| < max)
  {
  }

  /** How many octets the peer's first `n` chunks have. */
  function Sent(answers: seq<Answer>, n: nat): nat
    requires n <= |answers|
  {
    if n == 0 then 0
    else (if answers[0].Arrived? then |answers[0].chunk| else 0) + Sent(answers[1..], n - 1)
  }

  /** When every call succeeds, what the peer sends fits, and each FIONREAD before the last
      chunk reports octets that leave room, then all that the peer sent is stored. */
  lemma {:induction false} AllIsStored(answers: seq<Answer>, offset: nat, max: nat)
    requires offset < max && offset + Sent(answers, |answers|) <= max
    requires forall i :: 0 <= i < |answers| ==> answers[i].Arrived?
    requires forall i :: 0 <= i < |answers| - 1 ==>
               && answers[i].chunk != [] && answers[i].polled && 0 < answers[i].pending
               && offset + Sent(answers, i + 1) + answers[i].pending < max
    ensures Concat(Stored(answers, offset, max)) == Stream(answers)
    ensures ReadError(answers, offset, max) == 0
    decreases |answers|
  {
    if answers != [] {
      var a, rest := answers[0], answers[1..];
      var c := Taken(a.chunk, max - offset);
      SentTail(answers, |answers|);
      assert c == a.chunk;
      StoredStep(answers, offset, max);
      hide Stored;
      hide ReadError;
      if rest == [] {
        assert [c] + [] == [c];
        NothingStored(offset + |c|, max);
        ConcatCons(c, []);
        assert Stream(rest) == [] && a.chunk + [] == a.chunk;
      } else {
        SentTail(answers, 1);
        GoesOnIff(a, offset, max);
        hide Taken;
        hide GoesOn;
        forall i | 0 <= i < |rest| - 1
          ensures offset + |c| + Sent(rest, i + 1) + rest[i].pending < max
        {
          SentTail(answers, i + 2);
          assert rest[i] == answers[i + 1];
        }
        AllIsStored(rest, offset + |c|, max);
        ConcatCons(c, Stored(rest, offset + |c|, max));
      }
    }
  }

  lemma SentTail(answers: seq<Answer>, n: nat)
    requires 0 < n <= |answers| && answers[0].Arrived?
    ensures Sent(answers, n) == |answers[0].chunk| + Sent(answers[1..], n - 1)
    ensures Sent(answers[1..], 0) == 0
  {
  }

  lemma NothingStored(offset: nat, max: nat)
    requires offset <= max
    ensures Stored([], offset, max) == [] && ReadError([], offset, max) == 0
  {
  }

  /** One turn of the loop: `got` followed by what is still to be stored does not change. */
  lemma ReadStep(answers: seq<Answer>, turn: nat, offset: nat, max: nat, got: bytes)
    requires turn <= |answers| && offset <= max
    ensures turn == |answers| || answers[turn].Failed? ==> Concat(Stored(answers[turn..], offset, max)) == []
    ensures turn < |answers| && answers[turn].Arrived? ==>
      var a := answers[turn];
      var c := Taken(a.chunk, max - offset);
      got + Concat(Stored(answers[turn..], offset, max))
        == got + c + if GoesOn(a, offset, max) then Concat(Stored(answers[turn + 1..], offset + |c|, max)) else []
    ensures ReadError(answers[turn..], offset, max) ==
      if turn == |answers| then 0
      else if answers[turn].Failed? then answers[turn].errno
      else if GoesOn(answers[turn], offset, max) then
        ReadError(answers[turn + 1..], offset + |Taken(answers[turn].chunk, max - offset)|, max)
      else 0
    ensures turn < |answers| && GoesOn(answers[turn], offset, max) ==>
      offset + |Taken(answers[turn].chunk, max - offset)| <= max
  {
    hide Taken;
    assert turn < |answers| ==> answers[turn..][0] == answers[turn] && answers[turn..][1..] == answers[turn + 1..];
    if turn < |answers| && answers[turn].Arrived? {
      var a := answers[turn];
      var c := Taken(a.chunk, max - offset);
      assert answers[turn..][0] == a && answers[turn..][1..] == answers[turn + 1..];
      if GoesOn(a, offset, max) {
        ConcatCons(c, Stored(answers[turn + 1..], offset + |c|, max));
      } else {
        ConcatCons(c, []);
      }
    }
  }

  class ReadBuffer {
    var dataLength: nat
    var dataPartLength: nat
    var dataBuffer: array?<byte>

    predicate Valid()
      reads this, dataBuffer
    {
      if dataBuffer == null then dataLength == 0 else dataLength <= dataBuffer.Length
    }

    function View(): Received
      reads this, dataBuffer
    {
      Received(if dataBuffer == null then [] else dataBuffer[..], dataLength, dataPartLength)
    }

    constructor ()
      ensures Valid() && dataBuffer == null && dataLength == 0
    {
      dataLength := 0;
      dataBuffer := null;
    }

    /** `Read` against any behaviour of the socket. `answers` lists what the operating system
        does call by call; after the last one `recv` returns 0. Whatever it does, the octets
        stored are the concatenation of the received chunks and stay within `maxLength`. */
    method Read(answers: seq<Answer>, maxLength: nat, partLength: nat) returns (error: nat)
      requires Valid() && dataBuffer == null
      modifies this
      ensures Valid() && dataBuffer != null && fresh(dataBuffer) && dataBuffer.Length == maxLength
      ensures dataPartLength == partLength
      ensures dataLength == |Concat(Stored(answers, 0, maxLength))|
      ensures dataBuffer[..dataLength] == Concat(Stored(answers, 0, maxLength))
      ensures error == ReadError(answers, 0, maxLength)
    {
      hide Stored;
      hide ReadError;
      hide GoesOn;
      hide Concat;
      var noffset, turn := 0, 0;
      dataPartLength := partLength;
      var buffer := new byte[maxLength];
      dataBuffer := buffer;
      ghost var got: bytes := [];
      while true
        invariant turn <= |answers| && noffset == dataLength == |got| <= maxLength
        invariant dataBuffer == buffer && dataPartLength == partLength
        invariant buffer[..noffset] == got
        invariant got + Concat(Stored(answers[turn..], noffset, maxLength)) == Concat(Stored(answers, 0, maxLength))
        invariant ReadError(answers, 0, maxLength) == ReadError(answers[turn..], noffset, maxLength)
        decreases |answers| - turn
      {
        ReadStep(answers, turn, noffset, maxLength, got);
        if turn == |answers| {
          return 0;
        }
        var answer := answers[turn];
        if answer.Failed? {
          return answer.errno;
        }
        var chunk := Taken(answer.chunk, maxLength - noffset);
        StoreChunk(buffer, noffset, chunk);
        dataLength := dataLength + |chunk|;
        got := got + chunk;
        if !GoesOn(answer, noffset, maxLength) {
          return 0;
        }
        noffset := noffset + |chunk|;
        turn := turn + 1;
      }
    }

    /** What the kernel does inside `recv`: the chunk lands at `offset`, all else is kept. */
    static method StoreChunk(buffer: array<byte>, offset: nat, chunk: bytes)
      requires offset + |chunk| <= buffer.Length
      modifies buffer
      ensures buffer[..offset + |chunk|] == old(buffer[..offset]) + chunk
      ensures buffer[offset + |chunk|..] == old(buffer[offset + |chunk|..])
    {
      forall k | 0 <= k < |chunk| {
        buffer[offset + k] := chunk[k];
      }
    }
  }
}
