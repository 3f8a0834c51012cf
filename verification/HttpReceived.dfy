/** The parser and the octets past the received ones: `Head()` spans the whole head part,
    so the scan may run into octets that were never received. */
module HttpReceived {
  import opened Bytes
  import opened FindMatch
  import opened ReadBuffers
  import opened HttpParser
  import opened LineEnds
  import RoundTrip = HttpRoundTrip

  /** A separator ends within the first `cut` octets, looking line by line from `begin`. */
  predicate HeadEndsBy(head: bytes, begin: nat, cut: nat)
    decreases |head| - begin
  {
    var line := Find(head, begin, |head|, LINE_ENDS);
    line.result > 0 && if line.result <= 2 then line.end <= cut else HeadEndsBy(head, line.end, cut)
  }

  /** Two texts of one length that agree on the first `cut` octets. */
  predicate Agree(a: bytes, b: bytes, cut: nat) {
    |a| == |b| && forall i :: 0 <= i < cut && i < |a| ==> a[i] == b[i]
  }

  lemma {:induction false} FoundInside(head: bytes, p: nat)
    ensures var line := Find(head, p, |head|, LINE_ENDS);
            line.result > 0 ==>
              && p <= line.begin < line.end <= |head|
              && (line.result == 1 ==> line.end == line.begin + 4) && (line.result == 2 ==> line.end == line.begin + 2)
              && (head[line.begin] == CR || head[line.begin] == LF)
              && (forall i :: p <= i < line.begin ==> head[i] != LF)
    decreases |head| - p
  {
    hide Find;
    FindLineEnd(head, p, |head|);
    if p < |head| {
      FoundInside(head, p + 1);
    }
  }

  /** A separator needs two octets. */
  lemma {:induction false} SeparatorNeedsRoom(head: bytes, p: nat, cut: nat)
    requires HeadEndsBy(head, p, cut)
    ensures p + 2 <= cut
    decreases |head| - p
  {
    FoundInside(head, p);
    var line := Find(head, p, |head|, LINE_ENDS);
    if line.result > 2 {
      SeparatorNeedsRoom(head, line.end, cut);
    }
  }

  lemma HeadEndsByNext(a: bytes, p: nat, cut: nat)
    requires Find(a, p, |a|, LINE_ENDS) == Find(a, p + 1, |a|, LINE_ENDS)
    ensures HeadEndsBy(a, p, cut) == HeadEndsBy(a, p + 1, cut)
  {
    hide Find;
  }

  /** As long as a separator is to come within the first `cut` octets, the next line end is
      found at the same place in every text that agrees on them. */
  lemma {:induction false} FindAgrees(a: bytes, b: bytes, p: nat, cut: nat)
    requires Agree(a, b, cut) && HeadEndsBy(a, p, cut)
    ensures Find(b, p, |b|, LINE_ENDS) == Find(a, p, |a|, LINE_ENDS)
    decreases |a| - p
  {
    hide Find;
    var line := Find(a, p, |a|, LINE_ENDS);
    FoundInside(a, p);
    assert line.result > 0 && (line.result <= 2 ==> line.end <= cut) && (line.result > 2 ==> HeadEndsBy(a, line.end, cut));
    hide HeadEndsBy;
    if line.result > 2 {
      SeparatorNeedsRoom(a, line.end, cut);
    }
    FindLineEnd(a, p, |a|);
    FindLineEnd(b, p, |b|);
    if !CrlfAt(a, p, |a|) && a[p] != LF {
      HeadEndsByNext(a, p, cut);
      FoundInside(a, p + 1);
      FindAgrees(a, b, p + 1, cut);
    }
  }

  lemma {:induction false} ScanCharAgrees(a: bytes, b: bytes, from: nat, it: nat, lim: nat, list: cstring)
    requires |a| == |b| && lim <= |a| && forall i :: 0 <= i < lim ==> a[i] == b[i]
    ensures ScanChar(a, from, it, lim, list) == ScanChar(b, from, it, lim, list)
    decreases lim - it
  {
    if it < lim {
      ScanCharAgrees(a, b, from, it + 1, lim, list);
    }
  }

  lemma FieldAgrees(a: bytes, b: bytes, begin: nat, end: nat)
    requires |a| == |b| && end <= |a| && forall i :: 0 <= i < end ==> a[i] == b[i]
    ensures FieldOf(a, begin, end) == FieldOf(b, begin, end)
  {
    hide ScanChar;
    ScanCharAgrees(a, b, begin, begin, end, NAME_ENDS);
    var name := FindCharSpec(a, begin, end, NAME_ENDS);
    if name.result == 1 {
      ScanCharAgrees(a, b, name.end, name.end, end, VALUE_ENDS);
      assert a[name.begin..name.end - 1] == b[name.begin..name.end - 1];
      var value := FindCharSpec(a, name.end, end, VALUE_ENDS);
      if value.result != 0 {
        assert a[value.begin..value.end - 1] == b[value.begin..value.end - 1];
      }
    }
  }

  lemma TargetAgrees(a: bytes, b: bytes, from: nat, end: nat)
    requires |a| == |b| && end <= |a| && forall i :: 0 <= i < end ==> a[i] == b[i]
    ensures TargetOf(a, from, end) == TargetOf(b, from, end)
  {
    hide ScanChar;
    ScanCharAgrees(a, b, from, from, end, TARGET_ENDS);
    var path := FindCharSpec(a, from, end, TARGET_ENDS);
    if path.result != 0 {
      assert a[path.begin..path.end - 1] == b[path.begin..path.end - 1];
    }
  }

  /** Two buffers with the same received octets. */
  predicate SameReceived(d: Received, e: Received) {
    && d.Valid() && e.Valid() && d.length == e.length && d.part == e.part && |d.data| == |e.data|
    && d.data[..d.length] == e.data[..e.length]
  }

  lemma SameReceivedAgree(d: Received, e: Received)
    requires SameReceived(d, e)
    ensures Agree(d.Head(), e.Head(), d.length)
    ensures forall offset: nat :: d.Content(offset) == e.Content(offset)
  {
    forall i | 0 <= i < d.length && i < d.part ensures d.Head()[i] == e.Head()[i] {
      assert d.data[..d.length][i] == e.data[..e.length][i];
    }
    forall offset: nat ensures d.Content(offset) == e.Content(offset) {
      var o := if offset < d.length then offset else d.length;
      assert d.data[o..d.length] == d.data[..d.length][o..];
      assert e.data[o..e.length] == e.data[..e.length][o..];
    }
  }

  lemma {:induction false} ParseLinesAgree(d: Received, e: Received, target: nat, begin: nat, lineNo: nat, req: Request)
    requires SameReceived(d, e) && HeadEndsBy(d.Head(), begin, d.length)
    ensures ParseLines(d, target, begin, lineNo, req) == ParseLines(e, target, begin, lineNo, req)
    decreases d.part - begin
  {
    hide Find;
    var a, b := d.Head(), e.Head();
    SameReceivedAgree(d, e);
    FindAgrees(a, b, begin, d.length);
    var line := Find(a, begin, d.part, LINE_ENDS);
    FoundInside(a, begin);
    if line.result <= 2 {
      StepSeparator(d, target, begin, lineNo, req, line);
      StepSeparator(e, target, begin, lineNo, req, line);
    } else {
      SeparatorNeedsRoom(a, line.end, d.length);
      assert forall i :: 0 <= i < line.end ==> a[i] == b[i];
      ParseLineAgrees(d, e, target, begin, lineNo, req, line);
    }
  }

  lemma {:induction false} ParseLineAgrees(d: Received, e: Received, target: nat, begin: nat, lineNo: nat, req: Request, line: MatchResult)
    requires SameReceived(d, e)
    requires line == Find(d.Head(), begin, d.part, LINE_ENDS) == Find(e.Head(), begin, d.part, LINE_ENDS)
    requires line.result > 2 && begin < line.end <= d.part && HeadEndsBy(d.Head(), line.end, d.length)
    requires forall i :: 0 <= i < line.end ==> d.Head()[i] == e.Head()[i]
    ensures ParseLines(d, target, begin, lineNo, req) == ParseLines(e, target, begin, lineNo, req)
    decreases d.part - begin, 0
  {
    hide ParseLines;
    hide HeadEndsBy;
    hide FieldOf;
    hide TargetOf;
    hide Find;
    if lineNo > 0 {
      FieldAgrees(d.Head(), e.Head(), begin, line.end);
      StepField(d, target, begin, lineNo, req, line);
      StepField(e, target, begin, lineNo, req, line);
      ParseLinesAgree(d, e, target, line.end, lineNo + 1,
                      req.(headers := req.headers + FieldOf(d.Head(), begin, line.end)));
    } else {
      TargetAgrees(d.Head(), e.Head(), target, line.end);
      StepTarget(d, target, begin, req, line);
      StepTarget(e, target, begin, req, line);
      ParseLinesAgree(d, e, target, line.end, 1, req.(uri := TargetOf(d.Head(), target, line.end).1));
    }
  }

  /** A verb has no CR and no LF, so it ends before the first line end. */
  lemma VerbBeforeLineEnd(head: bytes, k: nat, p: nat)
    requires k < |METHODS| && p < |head| && (head[p] == CR || head[p] == LF)
    ensures MatchesAt(head, 0, |head|, METHODS[k]) ==> |METHODS[k]| <= p
  {
    var n := METHODS[k];
    assert forall i :: 0 <= i < |n| ==> 32 <= n[i] <= 90;
    assert p < |n| ==> Fold(head[0 + p]) != Fold(n[p]);
  }

  lemma VerbAgrees(a: bytes, b: bytes, cut: nat)
    requires Agree(a, b, cut) && HeadEndsBy(a, 0, cut)
    ensures MatchFrom(a, 0, |a|, METHODS, 0) == MatchFrom(b, 0, |b|, METHODS, 0)
  {
    hide MatchFrom;
    hide Find;
    var line := Find(a, 0, |a|, LINE_ENDS);
    FoundInside(a, 0);
    if line.result > 2 {
      SeparatorNeedsRoom(a, line.end, cut);
    }
    VerbAgreesBefore(a, b, cut, line.begin);
  }

  /** The verb is settled when a line end follows within the common octets. */
  lemma VerbAgreesBefore(a: bytes, b: bytes, cut: nat, p: nat)
    requires Agree(a, b, cut) && p < cut && p < |a| && (a[p] == CR || a[p] == LF)
    ensures MatchFrom(a, 0, |a|, METHODS, 0) == MatchFrom(b, 0, |b|, METHODS, 0)
  {
    hide MatchFrom;
    RoundTrip.MethodsArePrefixFree();
    forall k: nat | k < |METHODS|
      ensures MatchesAt(a, 0, |a|, METHODS[k]) <==> MatchesAt(b, 0, |b|, METHODS[k])
    {
      VerbBeforeLineEnd(a, k, p);
      VerbBeforeLineEnd(b, k, p);
    }
    SameVerb(a, b, METHODS);
  }

  lemma SameVerb(a: bytes, b: bytes, needles: seq<cstring>)
    requires PrefixFree(needles) && needles != []
    requires forall k: nat :: k < |needles| ==> (MatchesAt(a, 0, |a|, needles[k]) <==> MatchesAt(b, 0, |b|, needles[k]))
    ensures MatchFrom(a, 0, |a|, needles, 0) == MatchFrom(b, 0, |b|, needles, 0)
  {
    hide MatchesAt;
    hide MatchFrom;
    hide PrefixFree;
    if MatchFrom(a, 0, |a|, needles, 0).result > 0 {
      SameVerbFound(a, b, needles);
    } else if MatchFrom(b, 0, |b|, needles, 0).result > 0 {
      SameVerbFound(b, a, needles);
    } else {
      MatchFromNone(a, 0, |a|, needles, 0);
      MatchFromNone(b, 0, |b|, needles, 0);
    }
  }

  lemma SameVerbFound(a: bytes, b: bytes, needles: seq<cstring>)
    requires PrefixFree(needles) && MatchFrom(a, 0, |a|, needles, 0).result > 0
    requires forall k: nat :: k < |needles| && MatchesAt(a, 0, |a|, needles[k]) ==> MatchesAt(b, 0, |b|, needles[k])
    ensures MatchFrom(a, 0, |a|, needles, 0) == MatchFrom(b, 0, |b|, needles, 0)
  {
    hide MatchesAt;
    hide MatchFrom;
    hide PrefixFree;
    MatchFromEnd(a, needles);
    MatchFromEnd(b, needles);
    var k := MatchFrom(a, 0, |a|, needles, 0).result - 1;
    MatchPrefixFree(a, 0, |a|, needles, k);
    MatchPrefixFree(b, 0, |b|, needles, k);
  }

  lemma MatchFromEnd(a: bytes, needles: seq<cstring>)
    ensures var r := MatchFrom(a, 0, |a|, needles, 0);
            r.result > 0 ==> r.result <= |needles| && r.begin == 0 && r.end == |needles[r.result - 1]|
  {
    hide MatchFrom;
    hide Chosen;
    MatchFromChooses(a, 0, |a|, needles, 0);
  }

  lemma {:induction false} MatchFromNone(buf: bytes, from: nat, lim: nat, needles: seq<cstring>, i: nat)
    requires lim <= |buf| && i <= |needles|
    ensures var r := MatchFrom(buf, from, lim, needles, i);
            r.result == 0 ==> r == NO_MATCH
    decreases |needles| - i
  {
    if i < |needles| {
      MatchFromNone(buf, from, lim, needles, i + 1);
    }
  }

  /** If the head ends within the received octets, code, verb, target, headers and content
      depend on the received octets alone. */
  lemma ParseDependsOnReceived(d: Received, e: Received, req: Request)
    requires SameReceived(d, e) && HeadEndsBy(d.Head(), 0, d.length)
    ensures Parse(d, req) == Parse(e, req)
  {
    hide ParseLines;
    hide MatchFrom;
    SameReceivedAgree(d, e);
    VerbAgrees(d.Head(), e.Head(), d.length);
    var verb := MatchFrom(d.Head(), 0, d.part, METHODS, 0);
    ParseLinesAgree(d, e, verb.end, 0, 0, req.(verb := verb.result));
  }

  // ----- and only then -----

  /** The buffer with every octet past the received ones cleared. */
  function Cleared(d: Received): (e: Received)
    requires d.Valid()
    ensures SameReceived(d, e)
  {
    var zeros := seq(|d.data| - d.length, _ => 0);
    d.(data := d.data[..d.length] + zeros)
  }

  /** In a text that is zero from `cut` on, no separator ends after `cut`. */
  lemma {:induction false} ZerosEndNoHead(head: bytes, p: nat, cut: nat)
    requires forall i :: cut <= i < |head| ==> head[i] == 0
    ensures var line := Find(head, p, |head|, LINE_ENDS);
            line.result > 0 ==> line.end <= cut
    decreases |head| - p
  {
    hide Find;
    FindLineEnd(head, p, |head|);
    if p < |head| {
      ZerosEndNoHead(head, p + 1, cut);
    }
  }

  lemma {:induction false} NoHeadNoSuccess(d: Received, target: nat, begin: nat, lineNo: nat, req: Request)
    requires d.Valid() && !HeadEndsBy(d.Head(), begin, d.length)
    requires forall i :: d.length <= i < d.part ==> d.Head()[i] == 0
    ensures ParseLines(d, target, begin, lineNo, req).0 != OK
    decreases d.part - begin
  {
    var head := d.Head();
    var line := Find(head, begin, d.part, LINE_ENDS);
    ZerosEndNoHead(head, begin, d.length);
    FoundInside(head, begin);
    if line.result > 2 {
      assert !HeadEndsBy(head, line.end, d.length);
      if lineNo > 0 {
        NoHeadNoSuccess(d, target, line.end, lineNo + 1, req.(headers := req.headers + FieldOf(head, begin, line.end)));
      } else {
        NoHeadNoSuccess(d, target, line.end, 1, req.(uri := TargetOf(head, target, line.end).1));
      }
    }
  }

  /** Conversely, a parse that succeeds with its head end past the received octets owes its
      success to them: with those octets cleared the same request is refused. Together with
      the lemma above, a successful parse is determined by the received octets exactly when
      the head ends within them. */
  lemma SuccessIsDeterminedIff(d: Received, req: Request)
    requires d.Valid() && Parse(d, req).0 == OK
    ensures (forall e :: SameReceived(d, e) ==> Parse(e, req) == Parse(d, req)) <==> HeadEndsBy(d.Head(), 0, d.length)
  {
    hide ParseLines;
    hide MatchFrom;
    if HeadEndsBy(d.Head(), 0, d.length) {
      forall e | SameReceived(d, e) ensures Parse(e, req) == Parse(d, req) {
        ParseDependsOnReceived(d, e, req);
      }
    } else {
      var e := Cleared(d);
      assert !HeadEndsBy(e.Head(), 0, d.length) by {
        if HeadEndsBy(e.Head(), 0, d.length) {
          SameReceivedAgree(e, d);
          HeadEndsByAgrees(e.Head(), d.Head(), 0, d.length);
        }
      }
      var verb := MatchFrom(e.Head(), 0, e.part, METHODS, 0);
      NoHeadNoSuccess(e, verb.end, 0, 0, req.(verb := verb.result));
      assert Parse(e, req).0 != OK;
    }
  }

  lemma {:induction false} HeadEndsByAgrees(a: bytes, b: bytes, p: nat, cut: nat)
    requires Agree(a, b, cut) && HeadEndsBy(a, p, cut)
    ensures HeadEndsBy(b, p, cut)
    decreases |a| - p
  {
    FindAgrees(a, b, p, cut);
    FoundInside(a, p);
    var line := Find(a, p, |a|, LINE_ENDS);
    if line.result > 2 {
      HeadEndsByAgrees(a, b, line.end, cut);
    }
  }
}
