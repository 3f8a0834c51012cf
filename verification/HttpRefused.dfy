/** When a refusal is determined by the received octets, and when other octets past them
    would have changed it. */
module HttpRefused {
  import opened Bytes
  import opened FindMatch
  import opened ReadBuffers
  import opened HttpParser
  import opened LineEnds
  import opened HttpReceived
  import opened HttpCodes

  /** No octet past the received ones has a say in the result. */
  ghost predicate Determined(d: Received, req: Request)
    requires d.Valid()
  {
    forall e :: SameReceived(d, e) ==> Parse(e, req) == Parse(d, req)
  }

  /** The buffer with other octets past the received ones. */
  function Completed(d: Received, fill: bytes): (e: Received)
    requires d.Valid() && |fill| == |d.data|
    ensures SameReceived(d, e)
    ensures forall i :: d.length <= i < d.part ==> e.Head()[i] == fill[i]
  {
    var data := d.data[..d.length] + fill[d.length..];
    assert data[..d.length] == d.data[..d.length];
    d.(data := data)
  }

  // ----- the whole head part was received -----

  lemma {:induction false} SameLines(d: Received, e: Received, target: nat, begin: nat, lineNo: nat, req: Request)
    requires SameReceived(d, e) && d.Head() == e.Head()
    ensures ParseLines(d, target, begin, lineNo, req) == ParseLines(e, target, begin, lineNo, req)
    decreases d.part - begin
  {
    SameReceivedAgree(d, e);
    var head := d.Head();
    var line := Find(head, begin, d.part, LINE_ENDS);
    FoundInside(head, begin);
    if line.result > 2 {
      if lineNo > 0 {
        SameLines(d, e, target, line.end, lineNo + 1, req.(headers := req.headers + FieldOf(head, begin, line.end)));
      } else {
        SameLines(d, e, target, line.end, 1, req.(uri := TargetOf(head, target, line.end).1));
      }
    }
  }

  /** Every result is determined when at least the head part was received. */
  lemma FullHeadIsDetermined(d: Received, req: Request)
    requires d.Valid() && d.part <= d.length
    ensures Determined(d, req)
  {
    hide ParseLines;
    hide MatchFrom;
    forall e | SameReceived(d, e) ensures Parse(e, req) == Parse(d, req) {
      SameReceivedAgree(d, e);
      assert d.Head() == e.Head();
      var verb := MatchFrom(d.Head(), 0, d.part, METHODS, 0);
      SameLines(d, e, verb.end, 0, 0, req.(verb := verb.result));
    }
  }

  // ----- 405 -----

  /** Some verb fits into the head part and agrees with its first `known` octets. */
  predicate VerbPossible(head: bytes, known: nat) {
    exists k :: 0 <= k < |METHODS| && Fits(head, known, METHODS[k])
  }

  predicate Fits(head: bytes, known: nat, verb: cstring) {
    |verb| <= |head| && forall i :: 0 <= i < |verb| && i < known ==> Fold(head[i]) == Fold(verb[i])
  }

  lemma VerbMakesPossible(d: Received, e: Received)
    requires SameReceived(d, e) && StartsWithVerb(e.Head())
    ensures VerbPossible(d.Head(), d.length)
  {
    SameReceivedAgree(d, e);
    var k :| 0 <= k < |METHODS| && MatchesAt(e.Head(), 0, |e.Head()|, METHODS[k]);
    var n := METHODS[k];
    assert forall i :: 0 <= i < |n| ==> Fold(e.Head()[0 + i]) == Fold(n[i]);
    assert Fits(d.Head(), d.length, n);
  }

  lemma PossibleMakesVerb(d: Received) returns (e: Received)
    requires d.Valid() && VerbPossible(d.Head(), d.length)
    ensures SameReceived(d, e) && StartsWithVerb(e.Head())
  {
    var k :| 0 <= k < |METHODS| && Fits(d.Head(), d.length, METHODS[k]);
    var n := METHODS[k];
    var fill := seq(|d.data|, i requires 0 <= i => if i < |n| then n[i] else 0);
    e := Completed(d, fill);
    SameReceivedAgree(d, e);
    assert MatchesAt(e.Head(), 0, |e.Head()|, n);
  }

  /** A 405 is determined exactly when no verb agrees with what was received. */
  lemma UnknownVerbIsDeterminedIff(d: Received, req: Request)
    requires d.Valid() && Parse(d, req).0 == METHOD_NOT_ALLOWED
    ensures Determined(d, req) <==> !VerbPossible(d.Head(), d.length)
  {
    hide ParseLines;
    hide MatchFrom;
    hide VerbPossible;
    hide StartsWithVerb;
    CodeIs(d, req);
    VerbFoundIff(d.Head());
    if VerbPossible(d.Head(), d.length) {
      var e := PossibleMakesVerb(d);
      CodeIs(e, req);
    } else {
      forall e | SameReceived(d, e) ensures Parse(e, req) == Parse(d, req) {
        VerbFoundIff(e.Head());
        if StartsWithVerb(e.Head()) {
          VerbMakesPossible(d, e);
        }
      }
    }
  }

  // ----- 400 -----

  /** What follows a line end that is no separator. */
  lemma {:induction false} LineShape(head: bytes, p: nat)
    ensures var line := Find(head, p, |head|, LINE_ENDS);
            && (line.result == 3 ==>
                  p <= line.begin < line.end == line.begin + 1 <= |head| && head[line.begin] == LF && (line.end < |head| ==> head[line.end] != LF))
            && (line.result == 4 ==>
                  p <= line.begin < line.end == line.begin + 2 <= |head| && CrlfAt(head, line.begin, |head|) && !CrlfAt(head, line.end, |head|))
            && line.result <= 4
    decreases |head| - p
  {
    hide Find;
    FindLineEnd(head, p, |head|);
    if p < |head| {
      LineShape(head, p + 1);
    }
  }

  /** The line end at `line` lies within the first `known` octets, and no octets after these
      can make a separator of it. */
  predicate LineSettled(head: bytes, line: MatchResult, known: nat)
    requires line.end <= |head|
  {
    && line.end <= known
    && (line.result == 3 ==> line.end < known || line.end == |head|)
    && (line.result == 4 ==>
          || line.end + 2 > |head|
          || line.end + 1 < known
          || (line.end < known && head[line.end] != CR))
  }

  /** A line end within the common octets stands in the other text as well, or a separator
      begins there. */
  lemma {:induction false} LineNear(a: bytes, b: bytes, p: nat, known: nat)
    requires Agree(a, b, known)
    requires var line := Find(a, p, |a|, LINE_ENDS); line.result > 2 && line.end <= known
    ensures var (line, other) := (Find(a, p, |a|, LINE_ENDS), Find(b, p, |b|, LINE_ENDS));
            other == line || (other.begin == line.begin && 1 <= other.result <= 2 && !LineSettled(a, line, known))
    decreases |a| - p
  {
    hide Find;
    LineShape(a, p);
    FoundInside(a, p);
    FindLineEnd(a, p, |a|);
    FindLineEnd(b, p, |b|);
    if !CrlfAt(a, p, |a|) && a[p] != LF {
      FoundInside(a, p + 1);
      LineNear(a, b, p + 1, known);
    }
  }

  /** With a first line end that is settled, refused for its target: the same in every buffer. */
  lemma SettledLineAgrees(d: Received, e: Received, req: Request)
    requires SameReceived(d, e) && d.length > 0 && Parse(d, req).0 == BAD_REQUEST
    requires var line := Find(d.Head(), 0, d.part, LINE_ENDS);
             line.result > 2 && line.end <= d.part && LineSettled(d.Head(), line, d.length)
    ensures Parse(e, req) == Parse(d, req)
  {
    hide ParseLines;
    hide MatchFrom;
    hide Find;
    hide TargetOf;
    var a, b := d.Head(), e.Head();
    SameReceivedAgree(d, e);
    LineNear(a, b, 0, d.length);
    FoundInside(a, 0);
    var line := Find(a, 0, d.part, LINE_ENDS);
    assert line == Find(b, 0, e.part, LINE_ENDS);
    hide LineSettled;
    VerbAgreesBefore(a, b, d.length, line.begin);
    var verb := MatchFrom(a, 0, d.part, METHODS, 0);
    assert Parse(d, req) == ParseLines(d, verb.end, 0, 0, req.(verb := verb.result));
    TargetAgrees(a, b, verb.end, line.end);
    StepTarget(d, verb.end, 0, req.(verb := verb.result), line);
    StepTarget(e, verb.end, 0, req.(verb := verb.result), line);
    LinesCode(d, verb.end, line.end, 1, req.(verb := verb.result, uri := TargetOf(a, verb.end, line.end).1));
  }

  /** Octets that turn a line end which is not settled into something else. */
  function Unsettling(size: nat, line: MatchResult): (fill: bytes)
    ensures |fill| == size
  {
    seq(size, i requires 0 <= i =>
      if line.result == 4 && i == line.end then CR else LF)
  }

  lemma UnsettledLineChanges(d: Received, req: Request) returns (e: Received)
    requires d.Valid() && d.length > 0
    requires var line := Find(d.Head(), 0, d.part, LINE_ENDS);
             line.result > 2 && line.end <= d.part && !LineSettled(d.Head(), line, d.length)
    ensures SameReceived(d, e) && Parse(e, req).0 != BAD_REQUEST
  {
    hide Find;
    hide Parse;
    var a := d.Head();
    var line := Find(a, 0, d.part, LINE_ENDS);
    if line.end > d.length {
      e := Cleared(d);
      var z := e.Head();
      SameReceivedAgree(d, e);
      assert forall i :: d.length <= i < |z| ==> z[i] == 0;
      ZerosEndNoHead(z, 0, d.length);
      var other := Find(z, 0, e.part, LINE_ENDS);
      if other.result > 2 {
        LineNear(z, a, 0, d.length);
      }
      CodeIs(e, req);
    } else {
      e := Completed(d, Unsettling(|d.data|, line));
      SameReceivedAgree(d, e);
      LineNear(a, e.Head(), 0, d.length);
      LineShape(a, 0);
      LineShape(e.Head(), 0);
      CodeIs(e, req);
    }
  }

  /** A 400 is determined exactly when nothing was received, or when the first line end was
      received with enough after it to show that it is no separator. */
  lemma BadRequestIsDeterminedIff(d: Received, req: Request)
    requires d.Valid() && Parse(d, req).0 == BAD_REQUEST
    ensures var line := Find(d.Head(), 0, d.part, LINE_ENDS);
            Determined(d, req) <==> d.length == 0 || (line.end <= d.part && LineSettled(d.Head(), line, d.length))
  {
    hide Find;
    hide LineSettled;
    CodeIs(d, req);
    FoundInside(d.Head(), 0);
    var line := Find(d.Head(), 0, d.part, LINE_ENDS);
    if d.length > 0 {
      if LineSettled(d.Head(), line, d.length) {
        hide Parse;
        forall e | SameReceived(d, e) ensures Parse(e, req) == Parse(d, req) {
          SettledLineAgrees(d, e, req);
        }
      } else {
        hide Parse;
        var e := UnsettledLineChanges(d, req);
      }
    }
  }

  // ----- 431 -----

  /** A text that ends in three line feeds ends a head, wherever the line loop stands. */
  lemma {:induction false} LineFeedsEndHead(head: bytes, p: nat)
    requires p + 2 <= |head| && |head| >= 3 && forall i :: |head| - 3 <= i < |head| ==> head[i] == LF
    ensures HeadEndsBy(head, p, |head|)
    decreases |head| - p
  {
    FindBefore(head, p, if p == |head| - 2 then p else |head| - 3);
    var line := Find(head, p, |head|, LINE_ENDS);
    FoundInside(head, p);
    LineShape(head, p);
    if line.result > 2 {
      LineFeedsEndHead(head, line.end);
    }
  }

  /** The scan from `p` stops no later than at a line feed it is heading for. */
  lemma {:induction false} FindBefore(head: bytes, p: nat, q: nat)
    requires p <= q < |head| && head[q] == LF
    ensures var line := Find(head, p, |head|, LINE_ENDS);
            line.result > 0 && line.begin <= q
    decreases q - p
  {
    hide Find;
    FindLineEnd(head, p, |head|);
    if p < q && !CrlfAt(head, p, |head|) && head[p] != LF {
      FindBefore(head, p + 1, q);
    }
  }

  /** Where the separator of a head ends. */
  lemma {:induction false} SeparatorEnd(head: bytes, p: nat, cut: nat) returns (end: nat)
    requires HeadEndsBy(head, p, cut)
    ensures p + 2 <= end <= cut && end <= |head| && HeadEndsBy(head, p, end)
    ensures head[end - 1] == LF && (head[end - 2] == CR || head[end - 2] == LF)
    decreases |head| - p
  {
    FoundInside(head, p);
    SeparatorShape(head, p);
    var line := Find(head, p, |head|, LINE_ENDS);
    end := line.end;
    if line.result > 2 {
      end := SeparatorEnd(head, line.end, cut);
    }
  }

  lemma {:induction false} SeparatorShape(head: bytes, p: nat)
    ensures var line := Find(head, p, |head|, LINE_ENDS);
            1 <= line.result <= 2 ==>
              && line.begin + 2 <= line.end <= |head| && head[line.end - 1] == LF
              && (head[line.end - 2] == CR || head[line.end - 2] == LF)
    decreases |head| - p
  {
    hide Find;
    FindLineEnd(head, p, |head|);
    if p < |head| {
      SeparatorShape(head, p + 1);
    }
  }

  /** A head part that was received up to `known`, completed with zeros, with line feeds, and
      with CR LF. */
  ghost predicate Completions(e: bytes, known: nat, zeros: bytes, feeds: bytes, crlf: bytes) {
    && Agree(e, zeros, known) && Agree(e, feeds, known) && Agree(e, crlf, known)
    && forall i :: known <= i < |e| ==>
         zeros[i] == 0 && feeds[i] == LF && crlf[i] == if i == known then CR else LF
  }

  lemma AgreeMore(e: bytes, b: bytes, known: nat, more: nat)
    requires Agree(e, b, known) && forall i :: known <= i < more && i < |e| ==> e[i] == b[i]
    ensures Agree(e, b, more)
  {
  }

  /** A verb has no zero, so it lies within what was received. */
  lemma VerbInZeros(e: bytes, zeros: bytes, known: nat)
    requires Agree(e, zeros, known) && StartsWithVerb(zeros) && forall i :: known <= i < |zeros| ==> zeros[i] == 0
    ensures StartsWithVerb(e)
  {
    var k :| 0 <= k < |METHODS| && MatchesAt(zeros, 0, |zeros|, METHODS[k]);
    var n := METHODS[k];
    forall i | 0 <= i < |n| ensures Fold(e[0 + i]) == Fold(n[i]) {
      assert Fold(zeros[0 + i]) == Fold(n[i]);
      assert n[i] != 0;
    }
  }

  /** A separator that ends within what two texts have in common ends both heads. */
  lemma EndsHead(e: bytes, b: bytes, known: nat, end: nat)
    requires Agree(e, b, known) && end <= |e| && HeadEndsBy(e, 0, end)
    requires forall i :: known <= i < end ==> e[i] == b[i]
    ensures HeadEnds(b)
  {
    hide HeadEndsBy;
    AgreeMore(e, b, known, end);
    HeadEndsByAgrees(e, b, 0, end);
    HeadEndsByMore(b, 0, end, |b|);
  }

  lemma {:induction false} HeadEndsByMore(head: bytes, p: nat, cut: nat, more: nat)
    requires HeadEndsBy(head, p, cut) && cut <= more
    ensures HeadEndsBy(head, p, more)
    decreases |head| - p
  {
    var line := Find(head, p, |head|, LINE_ENDS);
    FoundInside(head, p);
    if line.result > 2 {
      HeadEndsByMore(head, line.end, cut, more);
    }
  }

  /** If any octets end the head, then one of three completions does. */
  lemma SomeCompletionEnds(e: bytes, known: nat, zeros: bytes, feeds: bytes, crlf: bytes)
    requires Completions(e, known, zeros, feeds, crlf) && |e| <= known + 2 && HeadEnds(e)
    ensures HeadEnds(zeros) || HeadEnds(feeds) || HeadEnds(crlf)
  {
    var end := SeparatorEnd(e, 0, |e|);
    hide HeadEndsBy;
    hide HeadEnds;
    if end <= known {
      EndsHead(e, zeros, known, end);
    } else if end == known + 1 || e[known] == LF {
      EndsHead(e, feeds, known, end);
    } else {
      EndsHead(e, crlf, known, end);
    }
  }

  /** A tab before the common line end refuses both, unless the line end became a separator. */
  lemma TabAgrees(a: bytes, b: bytes, known: nat)
    requires Agree(a, b, known) && TabRefused(a) && Find(a, 0, |a|, LINE_ENDS).end <= known
    ensures TabRefused(b) || HeadEnds(b)
  {
    hide MatchFrom;
    hide Find;
    hide FirstIn;
    hide LineSettled;
    LineNear(a, b, 0, known);
    FoundInside(a, 0);
    FoundInside(b, 0);
    var line := Find(a, 0, |a|, LINE_ENDS);
    VerbAgreesBefore(a, b, known, line.begin);
    if Find(b, 0, |b|, LINE_ENDS) == line {
      FirstInAgrees(a, b, MatchFrom(a, 0, |a|, METHODS, 0).end, line.end, TARGET_ENDS);
    }
  }

  lemma {:induction false} FirstInAgrees(a: bytes, b: bytes, from: nat, end: nat, list: bytes)
    requires |a| == |b| && from <= end <= |a| && forall i :: 0 <= i < end ==> a[i] == b[i]
    ensures FirstIn(a, from, end, list) == FirstIn(b, from, end, list)
    decreases end - from
  {
    if from < end && a[from] !in list {
      FirstInAgrees(a, b, from + 1, end, list);
    }
  }

  /** The first occurrence does not depend on how far the range goes past it. */
  lemma {:induction false} FirstInRange(a: bytes, from: nat, q: nat, end: nat, list: bytes)
    requires from <= q < end <= |a| && a[q] in list
    ensures FirstIn(a, from, q + 1, list) == FirstIn(a, from, end, list) <= q
    decreases q - from
  {
    if a[from] !in list {
      FirstInRange(a, from + 1, q, end, list);
    }
  }

  /** If a text has its first line end at its very last octet, then with line feeds in both of
      the last two places it has it earlier: a separator, or a CR LF just before. */
  lemma FeedsLine(e: bytes, feeds: bytes, known: nat)
    requires Agree(e, feeds, known) && |e| == known + 2 && feeds[known] == LF && feeds[known + 1] == LF
    requires Find(e, 0, |e|, LINE_ENDS) == MatchResult(3, known + 1, known + 2)
    ensures var line := Find(feeds, 0, |feeds|, LINE_ENDS);
            1 <= line.result <= 2 || (known > 0 && line == MatchResult(4, known - 1, known + 1) && feeds[known - 1] == CR)
  {
    hide Find;
    var line := Find(feeds, 0, |feeds|, LINE_ENDS);
    FindBefore(feeds, 0, known);
    FoundInside(feeds, 0);
    LineShape(feeds, 0);
    if line.result > 2 && line.end <= known {
      LineNear(feeds, e, 0, known);
    }
  }

  /** A tab that refuses such a text refuses it with the line feeds, or they end the head. */
  lemma TabBeforeLast(e: bytes, feeds: bytes, known: nat)
    requires Agree(e, feeds, known) && |e| == known + 2 && feeds[known] == LF && feeds[known + 1] == LF
    requires TabRefused(e) && Find(e, 0, |e|, LINE_ENDS) == MatchResult(3, known + 1, known + 2)
    ensures TabRefused(feeds) || HeadEnds(feeds)
  {
    hide MatchFrom;
    hide Find;
    FeedsLine(e, feeds, known);
    if Find(feeds, 0, |feeds|, LINE_ENDS).result > 2 {
      VerbAgreesBefore(feeds, e, known, known - 1);
      VerbEndsBefore(feeds, known - 1);
      TabMoves(e, feeds, MatchFrom(e, 0, |e|, METHODS, 0).end, known);
    } else {
      FoundInside(feeds, 0);
    }
  }

  lemma TabMoves(e: bytes, feeds: bytes, from: nat, known: nat)
    requires Agree(e, feeds, known) && |e| == known + 2 && from < known && e[known - 1] == CR
    requires TargetEndsInTab(e, from, known + 2)
    ensures TargetEndsInTab(feeds, from, known + 1)
  {
    FirstInRange(e, from, known - 1, known + 2, TARGET_ENDS);
    FirstInRange(feeds, from, known - 1, known + 1, TARGET_ENDS);
    FirstInAgrees(e, feeds, from, known, TARGET_ENDS);
    hide FirstIn;
  }

  lemma VerbEndsBefore(head: bytes, p: nat)
    requires p < |head| && (head[p] == CR || head[p] == LF)
    ensures MatchFrom(head, 0, |head|, METHODS, 0).end <= p
  {
    hide MatchFrom;
    MatchFromChooses(head, 0, |head|, METHODS, 0);
    MatchFromNone(head, 0, |head|, METHODS, 0);
    var r := MatchFrom(head, 0, |head|, METHODS, 0);
    if r.result > 0 {
      assert Chosen(head, 0, |head|, METHODS, r.result - 1);
      VerbBeforeLineEnd(head, r.result - 1, p);
    }
  }

  /** The line end of a request that is refused for a tab. */
  lemma TabLine(e: bytes) returns (line: MatchResult)
    requires TabRefused(e)
    ensures line == Find(e, 0, |e|, LINE_ENDS) && 3 <= line.result <= 4 && line.begin < line.end <= |e|
    ensures e[line.end - 1] == LF
    ensures line.result == 3 ==> line.end == line.begin + 1
    ensures line.result == 4 ==> line.end == line.begin + 2 && e[line.begin] == CR
  {
    hide Find;
    line := Find(e, 0, |e|, LINE_ENDS);
    LineShape(e, 0);
  }

  /** If any octets make a tab refuse the request, then one of three completions is refused
      for it as well, or ends the head. */
  lemma SomeCompletionHasTab(e: bytes, known: nat, zeros: bytes, feeds: bytes, crlf: bytes)
    requires Completions(e, known, zeros, feeds, crlf) && |e| <= known + 2 && TabRefused(e)
    ensures TabRefused(zeros) || HeadEnds(zeros) || TabRefused(feeds) || HeadEnds(feeds) || TabRefused(crlf) || HeadEnds(crlf)
  {
    hide Find;
    hide TabRefused;
    hide HeadEnds;
    var line := TabLine(e);
    if line.end <= known {
      TabAgrees(e, zeros, known);
    } else if line.end == known + 1 {
      AgreeMore(e, feeds, known, known + 1);
      TabAgrees(e, feeds, known + 1);
    } else if line.result == 4 {
      AgreeMore(e, crlf, known, known + 2);
      TabAgrees(e, crlf, known + 2);
    } else {
      TabBeforeLast(e, feeds, known);
    }
  }

  /** The three completions of what was received. */
  function WithZeros(d: Received): (e: Received)
    requires d.Valid()
    ensures SameReceived(d, e)
  {
    Completed(d, seq(|d.data|, _ => 0))
  }

  function WithFeeds(d: Received): (e: Received)
    requires d.Valid()
    ensures SameReceived(d, e)
  {
    Completed(d, seq(|d.data|, _ => LF))
  }

  function WithCrlf(d: Received): (e: Received)
    requires d.Valid()
    ensures SameReceived(d, e)
  {
    Completed(d, seq(|d.data|, i => if i == d.length then CR else LF))
  }

  lemma TheCompletions(d: Received, e: Received)
    requires SameReceived(d, e)
    ensures Completions(e.Head(), d.length, WithZeros(d).Head(), WithFeeds(d).Head(), WithCrlf(d).Head())
  {
    SameReceivedAgree(e, WithZeros(d));
    SameReceivedAgree(e, WithFeeds(d));
    SameReceivedAgree(e, WithCrlf(d));
  }

  lemma CompletionsDecide(e: bytes, known: nat, zeros: bytes, feeds: bytes, crlf: bytes)
    requires Completions(e, known, zeros, feeds, crlf)
    requires HeadCode(zeros) == HeadCode(feeds) == HeadCode(crlf) == HEAD_TOO_LARGE
    ensures HeadCode(e) == HEAD_TOO_LARGE
  {
    hide TabRefused;
    hide StartsWithVerb;
    VerbInZeros(e, zeros, known);
    if |e| >= known + 3 {
      LineFeedsEndHead(feeds, 0);
    } else {
      if HeadEnds(e) {
        SomeCompletionEnds(e, known, zeros, feeds, crlf);
      }
      if TabRefused(e) {
        SomeCompletionHasTab(e, known, zeros, feeds, crlf);
      }
    }
  }

  /** A 431 is final, whatever octets may follow the received ones, exactly when the received
      ones followed by zeros, by line feeds, and by CR LF are each answered with 431. This
      decides in three parses for all that may still come. */
  lemma TooLargeIsFinalIff(d: Received, req: Request)
    requires d.Valid()
    ensures (forall e :: SameReceived(d, e) ==> Parse(e, req).0 == HEAD_TOO_LARGE)
       <==> Parse(WithZeros(d), req).0 == Parse(WithFeeds(d), req).0 == Parse(WithCrlf(d), req).0 == HEAD_TOO_LARGE
  {
    hide Parse;
    hide HeadCode;
    if Parse(WithZeros(d), req).0 == Parse(WithFeeds(d), req).0 == Parse(WithCrlf(d), req).0 == HEAD_TOO_LARGE {
      CodeIs(WithZeros(d), req);
      CodeIs(WithFeeds(d), req);
      CodeIs(WithCrlf(d), req);
      forall e | SameReceived(d, e) ensures Parse(e, req).0 == HEAD_TOO_LARGE {
        CodeIs(e, req);
        TheCompletions(d, e);
        CompletionsDecide(e.Head(), d.length, WithZeros(d).Head(), WithFeeds(d).Head(), WithCrlf(d).Head());
      }
    }
  }

  /** In particular a 431 is never final when three or more octets of the head part are
      missing: line feeds there end the head. */
  lemma TooLargeNeedsTheHead(d: Received, req: Request)
    requires d.Valid() && d.part >= d.length + 3
    ensures !(forall e :: SameReceived(d, e) ==> Parse(e, req).0 == HEAD_TOO_LARGE)
  {
    hide Parse;
    var e := WithFeeds(d);
    LineFeedsEndHead(e.Head(), 0);
    CodeIs(e, req);
    assert Parse(e, req).0 != HEAD_TOO_LARGE;
  }
}
