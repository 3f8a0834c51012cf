/** Which code the parser answers, in terms of the octets of the head part alone. */
module HttpCodes {
  import opened Bytes
  import opened FindMatch
  import opened ReadBuffers
  import opened HttpParser
  import opened LineEnds
  import opened HttpReceived
  import RoundTrip = HttpRoundTrip

  predicate StartsWithVerb(head: bytes) {
    exists k :: 0 <= k < |METHODS| && MatchesAt(head, 0, |head|, METHODS[k])
  }

  /** The octet that ends the target: the first of blank, tab and line end after the verb. */
  predicate TargetEndsInTab(head: bytes, from: nat, end: nat)
    requires from <= end <= |head|
  {
    var q := FirstIn(head, from, end, TARGET_ENDS);
    q < end && head[q] == HT
  }

  /** The head contains a separator that the line loop reaches. */
  predicate HeadEnds(head: bytes) {
    HeadEndsBy(head, 0, |head|)
  }

  lemma VerbFoundIff(head: bytes)
    ensures MatchFrom(head, 0, |head|, METHODS, 0).result != 0 <==> StartsWithVerb(head)
  {
    hide MatchFrom;
    RoundTrip.MethodsArePrefixFree();
    MatchFromChooses(head, 0, |head|, METHODS, 0);
    var r := MatchFrom(head, 0, |head|, METHODS, 0).result;
    if r != 0 {
      MatchPrefixFree(head, 0, |head|, METHODS, r - 1);
    }
    if StartsWithVerb(head) {
      var k :| 0 <= k < |METHODS| && MatchesAt(head, 0, |head|, METHODS[k]);
      MatchPrefixFree(head, 0, |head|, METHODS, k);
    }
  }

  /** After the request line only the separator matters. */
  lemma {:induction false} LinesCode(data: Received, target: nat, begin: nat, lineNo: nat, req: Request)
    requires data.Valid() && lineNo > 0
    ensures ParseLines(data, target, begin, lineNo, req).0
            == if HeadEndsBy(data.Head(), begin, data.part) then OK else HEAD_TOO_LARGE
    decreases data.part - begin
  {
    var head := data.Head();
    var line := Find(head, begin, data.part, LINE_ENDS);
    FoundInside(head, begin);
    if line.result > 2 {
      LinesCode(data, target, line.end, lineNo + 1, req.(headers := req.headers + FieldOf(head, begin, line.end)));
    }
  }

  /** The verb ends before the first line does, and the line has an octet that ends the target. */
  lemma RequestLineShape(head: bytes, verb: nat, line: MatchResult)
    requires 0 < verb <= |METHODS| && MatchesAt(head, 0, |head|, METHODS[verb - 1])
    requires line == Find(head, 0, |head|, LINE_ENDS) && line.result != 0
    ensures |METHODS[verb - 1]| <= line.begin < line.end <= |head|
    ensures head[line.begin] in TARGET_ENDS
  {
    hide Find;
    FoundInside(head, 0);
    VerbBeforeLineEnd(head, verb - 1, line.begin);
  }

  lemma TargetFoundIff(head: bytes, from: nat, p: nat, end: nat)
    requires from <= p < end <= |head| && head[p] in TARGET_ENDS
    ensures TargetOf(head, from, end).0 <==> !TargetEndsInTab(head, from, end)
  {
    hide FindCharSpec;
    hide FirstIn;
    ScanCharFound(head, from, end, TARGET_ENDS);
    var q := FirstIn(head, from, end, TARGET_ENDS);
    assert q < end;
    assert TARGET_ENDS[0] != HT && TARGET_ENDS[1] == HT;
  }

  /** A tab ends the target of a request line that is not itself the separator. */
  predicate TabRefused(head: bytes) {
    var verb := MatchFrom(head, 0, |head|, METHODS, 0);
    var line := Find(head, 0, |head|, LINE_ENDS);
    line.result > 2 && verb.end <= line.end && TargetEndsInTab(head, verb.end, line.end)
  }

  /** The code that goes with a head part. */
  function HeadCode(head: bytes): nat {
    if !StartsWithVerb(head) then 405
    else if TabRefused(head) then 400
    else if HeadEnds(head) then 0
    else 431
  }

  /** The code of every parse: 400 for an empty read, or for a tab after the target in a
      request line that is not itself the separator; 405 without a known verb; 431 without a
      separator in the head part; and otherwise 0. */
  lemma CodeIs(data: Received, req: Request)
    requires data.Valid()
    ensures Parse(data, req).0 == if data.length == 0 then 400 else HeadCode(data.Head())
  {
    hide MatchFrom;
    hide TargetOf;
    hide TargetEndsInTab;
    hide Find;
    var head := data.Head();
    var verb := MatchFrom(head, 0, data.part, METHODS, 0);
    var line := Find(head, 0, data.part, LINE_ENDS);
    VerbFoundIff(head);
    FoundInside(head, 0);
    if data.length > 0 && verb.result != 0 {
      MatchFromChooses(head, 0, data.part, METHODS, 0);
      assert Chosen(head, 0, data.part, METHODS, verb.result - 1);
      var started := req.(verb := verb.result);
      if line.result > 2 {
        RequestLineShape(head, verb.result, line);
        TargetFoundIff(head, verb.end, line.begin, line.end);
        StepTarget(data, verb.end, 0, started, line);
        LinesCode(data, verb.end, line.end, 1, started.(uri := TargetOf(head, verb.end, line.end).1));
      }
    }
  }
}
