/** What the parser takes from each line of the head, and where the content starts, in terms
    of the octets alone. */
module HttpLines {
  import opened Bytes
  import opened FindMatch
  import opened ReadBuffers
  import opened HttpParser
  import opened LineEnds
  import opened HttpReceived

  lemma IndexNotOne(list: cstring, c: byte)
    requires c in list && |list| < TWO64
    ensures DelimiterCode(IndexOf(c, list)) != 0 <==> IndexOf(c, list) != 1
    ensures DelimiterCode(IndexOf(c, list)) == 1 <==> IndexOf(c, list) == 0
  {
    DelimiterCodes(IndexOf(c, list));
  }

  /** The scan, in terms of the first octet of the range that is in the list. */
  lemma ScanIs(head: bytes, from: nat, end: nat, list: cstring)
    requires from <= end <= |head| && list != [] && |list| < TWO64
    ensures var q := FirstIn(head, from, end, list);
            var r := FindCharSpec(head, from, end, list);
            && r.begin == from
            && (q == end ==> r.result == 0)
            && (q < end ==> r.end == q + 1 && r.result == DelimiterCode(IndexOf(head[q], list)))
  {
    var q := FirstIn(head, from, end, list);
    if q < end {
      ScanCharStops(head, from, from, q, end, list);
    } else {
      ScanCharMisses(head, from, from, end, list);
    }
  }

  lemma NameScan(head: bytes, from: nat, end: nat)
    requires from <= end <= |head|
    ensures var c := FirstIn(head, from, end, [58, 32, 10]);
            var r := FindCharSpec(head, from, end, NAME_ENDS);
            (r.result == 1 <==> c < end && head[c] == 58) && r.begin == from && (c < end ==> r.end == c + 1)
  {
    hide FindCharSpec;
    assert NAME_ENDS == [58, 32, 10];
    ScanIs(head, from, end, NAME_ENDS);
    var c := FirstIn(head, from, end, NAME_ENDS);
    hide FirstIn;
    if c < end {
      IndexNotOne(NAME_ENDS, head[c]);
      assert IndexOf(head[c], NAME_ENDS) == 0 <==> head[c] == 58;
    }
  }

  lemma ValueScan(head: bytes, from: nat, end: nat)
    requires from <= end <= |head|
    ensures var q := FirstIn(head, from, end, [13, 10]);
            var r := FindCharSpec(head, from, end, VALUE_ENDS);
            (r.result != 0 <==> q < end && head[q] == 13) && r.begin == from && (q < end ==> r.end == q + 1)
  {
    hide FindCharSpec;
    assert VALUE_ENDS == [13, 10];
    ScanIs(head, from, end, VALUE_ENDS);
    var q := FirstIn(head, from, end, VALUE_ENDS);
    hide FirstIn;
    if q < end {
      IndexNotOne(VALUE_ENDS, head[q]);
      assert IndexOf(head[q], VALUE_ENDS) != 1 <==> head[q] == 13;
    }
  }

  /** Exactly which lines are recorded as a field, and as what. The name goes up to the first
      colon, and neither a blank nor a line feed may come before it. The value goes up to the
      first CR, and no line feed may come before that. */
  lemma FieldIs(head: bytes, begin: nat, end: nat)
    requires begin <= end <= |head|
    ensures var c := FirstIn(head, begin, end, [58, 32, 10]);
            FieldOf(head, begin, end) ==
            if c == end || head[c] != 58 then []
            else
              var q := FirstIn(head, c + 1, end, [13, 10]);
              if q == end || head[q] != 13 then [] else [(head[begin..c], head[c + 1..q])]
  {
    NameScan(head, begin, end);
    var c := FirstIn(head, begin, end, [58, 32, 10]);
    if c < end {
      ValueScan(head, c + 1, end);
    }
    hide FindCharSpec;
    hide FirstIn;
  }

  /** A line that has no CR, being closed by a bare line feed, is never recorded. */
  lemma BareLineFeedLosesField(head: bytes, begin: nat, end: nat)
    requires begin <= end <= |head| && forall i :: begin <= i < end ==> head[i] != 13
    ensures FieldOf(head, begin, end) == []
  {
    FieldIs(head, begin, end);
  }

  /** Exactly which target is read: up to the first blank, tab, LF or CR; none if that is a
      tab. */
  lemma TargetIs(head: bytes, from: nat, end: nat)
    requires from <= end <= |head|
    ensures var q := FirstIn(head, from, end, [32, 9, 10, 13]);
            if q == end || head[q] == 9 then !TargetOf(head, from, end).0
            else TargetOf(head, from, end) == (true, head[from..q])
  {
    assert TARGET_ENDS == [32, 9, 10, 13];
    ScanIs(head, from, end, TARGET_ENDS);
    var q := FirstIn(head, from, end, TARGET_ENDS);
    if q < end {
      IndexNotOne(TARGET_ENDS, head[q]);
      assert IndexOf(head[q], TARGET_ENDS) == 1 <==> head[q] == 9;
    }
    hide FindCharSpec;
    hide FirstIn;
    hide IndexOf;
    hide DelimiterCode;
  }

  /** Where the separator ends that the line loop reaches from `begin`. */
  function HeadEnd(head: bytes, begin: nat): (end: nat)
    requires HeadEndsBy(head, begin, |head|)
    ensures begin <= end <= |head|
    decreases |head| - begin
  {
    var line := Find(head, begin, |head|, LINE_ENDS);
    if line.result <= 2 then line.end else HeadEnd(head, line.end)
  }

  lemma {:induction false} HeadEndIs(head: bytes, begin: nat, cut: nat)
    requires HeadEndsBy(head, begin, |head|)
    ensures HeadEndsBy(head, begin, cut) <==> HeadEnd(head, begin) <= cut
    decreases |head| - begin
  {
    var line := Find(head, begin, |head|, LINE_ENDS);
    FoundInside(head, begin);
    if line.result > 2 {
      HeadEndIs(head, line.end, cut);
    }
  }

  lemma {:induction false} LinesContent(data: Received, target: nat, begin: nat, lineNo: nat, req: Request)
    requires data.Valid() && ParseLines(data, target, begin, lineNo, req).0 == 0
    ensures HeadEndsBy(data.Head(), begin, data.part)
    ensures ParseLines(data, target, begin, lineNo, req).1.content == data.Content(HeadEnd(data.Head(), begin))
    decreases data.part - begin
  {
    var head := data.Head();
    var line := Find(head, begin, data.part, LINE_ENDS);
    FoundInside(head, begin);
    if line.result > 2 {
      if lineNo > 0 {
        LinesContent(data, target, line.end, lineNo + 1, req.(headers := req.headers + FieldOf(head, begin, line.end)));
      } else {
        LinesContent(data, target, line.end, 1, req.(uri := TargetOf(head, target, line.end).1));
      }
    }
  }

  /** The content of every successful parse: the received octets past the separator that ends
      the head, and none at all when that separator ends past the received octets. */
  lemma ContentIs(data: Received, req: Request)
    requires data.Valid() && Parse(data, req).0 == 0
    ensures HeadEndsBy(data.Head(), 0, data.part)
    ensures var end := HeadEnd(data.Head(), 0);
            Parse(data, req).1.content == if end <= data.length then data.data[end..data.length] else []
  {
    hide ParseLines;
    hide MatchFrom;
    var verb := MatchFrom(data.Head(), 0, data.part, METHODS, 0);
    LinesContent(data, verb.end, 0, 0, req.(verb := verb.result));
  }

  /** The fields of the lines from `begin` up to the separator, line by line. */
  function FieldsFrom(head: bytes, begin: nat): seq<(bytes, bytes)>
    decreases |head| - begin
  {
    var line := Find(head, begin, |head|, LINE_ENDS);
    if line.result <= 2 then [] else FieldOf(head, begin, line.end) + FieldsFrom(head, line.end)
  }

  /** After the request line: every line adds its field, if it has one, and nothing else is
      stored but the content, and that only with success. */
  lemma {:induction false} LinesStore(data: Received, target: nat, begin: nat, lineNo: nat, req: Request)
    requires data.Valid() && lineNo > 0
    ensures var (code, got) := ParseLines(data, target, begin, lineNo, req);
            && got == req.(headers := req.headers + FieldsFrom(data.Head(), begin), content := got.content)
            && (code != 0 ==> got.content == req.content)
            && code != 400
    decreases data.part - begin
  {
    hide Find;
    hide FieldOf;
    var head := data.Head();
    var line := Find(head, begin, data.part, LINE_ENDS);
    FoundInside(head, begin);
    FieldsStep(head, begin);
    hide FieldsFrom;
    if line.result > 2 {
      var more := req.(headers := req.headers + FieldOf(head, begin, line.end));
      StepField(data, target, begin, lineNo, req, line);
      hide ParseLines;
      LinesStore(data, target, line.end, lineNo + 1, more);
      Regroup(req.headers, FieldOf(head, begin, line.end), FieldsFrom(head, line.end));
    } else {
      assert req.headers + [] == req.headers;
    }
  }

  lemma FieldsStep(head: bytes, begin: nat)
    ensures var line := Find(head, begin, |head|, LINE_ENDS);
            FieldsFrom(head, begin) ==
            if line.result <= 2 then [] else FieldOf(head, begin, line.end) + FieldsFrom(head, line.end)
  {
  }

  lemma Regroup(a: seq<(bytes, bytes)>, b: seq<(bytes, bytes)>, c: seq<(bytes, bytes)>)
    ensures a + (b + c) == a + b + c
  {
  }

  /** What every parse stores. Without a verb, nothing. With a refused target, or a request
      line that is itself the separator or has no end, the verb alone, besides the content.
      Otherwise the verb, the target of the request line, and the fields of all later lines
      before the separator, in order; and the content only with success. */
  lemma ParseStores(data: Received, req: Request)
    requires data.Valid() && data.length > 0
    ensures var (code, got) := Parse(data, req);
            var head := data.Head();
            var verb := MatchFrom(head, 0, data.part, METHODS, 0);
            var line := Find(head, 0, data.part, LINE_ENDS);
            && (code != 0 ==> got.content == req.content)
            && if verb.result == 0 then got == req
               else if line.result <= 2 || !TargetOf(head, verb.end, line.end).0 then
                 got == req.(verb := verb.result, content := got.content)
               else
                 got == req.(verb := verb.result, uri := TargetOf(head, verb.end, line.end).1,
                             headers := req.headers + FieldsFrom(head, line.end), content := got.content)
  {
    hide MatchFrom;
    hide Find;
    hide TargetOf;
    hide FieldsFrom;
    var head := data.Head();
    var verb := MatchFrom(head, 0, data.part, METHODS, 0);
    var line := Find(head, 0, data.part, LINE_ENDS);
    FoundInside(head, 0);
    if verb.result != 0 && line.result > 2 {
      var started := req.(verb := verb.result);
      StepTarget(data, verb.end, 0, started, line);
      LinesStore(data, verb.end, line.end, 1, started.(uri := TargetOf(head, verb.end, line.end).1));
    }
  }
}
