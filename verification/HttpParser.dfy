/** `http_parse_request` of kernel/net/impl/httpimpl.cpp. */
module HttpParser {
  import opened Bytes
  import opened FindMatch
  import opened ReadBuffers

  /** The needle list of kernel/net/impl/protoimpl.h: each verb with the blank after it. */
  const METHODS: seq<cstring> := [
    [71, 69, 84, 32],                     // GET
    [80, 79, 83, 84, 32],                 // POST
    [80, 85, 84, 32],                     // PUT
    [72, 69, 65, 68, 32],                 // HEAD
    [79, 80, 84, 73, 79, 78, 83, 32],     // OPTIONS
    [68, 69, 76, 69, 84, 69, 32],         // DELETE
    [84, 82, 65, 67, 69, 32],             // TRACE
    [67, 79, 78, 78, 69, 67, 84, 32],     // CONNECT
    [80, 65, 84, 67, 72, 32]              // PATCH
  ]

  /** `HttpLineEndians`: the first two separate head and body, the last two end a line. */
  const LINE_ENDS: seq<cstring> := [[CR, LF, CR, LF], [LF, LF], [LF], [CR, LF]]

  const TARGET_ENDS: cstring := [SP, HT, LF, CR]
  const NAME_ENDS: cstring := [COLON, SP, LF]
  const VALUE_ENDS: cstring := [CR, LF]
  const QUERY_MARK: cstring := [QUESTION]

  const OK := 0
  const BAD_REQUEST := 400
  const METHOD_NOT_ALLOWED := 405
  const HEAD_TOO_LARGE := 431

  /** The out-parameters of the parser. A zcstring is written as the octets it spans. */
  datatype Request = Request(verb: nat, uri: bytes, content: bytes, params: bytes, headers: seq<(bytes, bytes)>)

  /** The header recorded for the line head[begin..end], if any. */
  function FieldOf(head: bytes, begin: nat, end: nat): seq<(bytes, bytes)>
    requires end <= |head|
  {
    var name := FindCharSpec(head, begin, end, NAME_ENDS);
    if name.result == 1 then
      var value := FindCharSpec(head, name.end, end, VALUE_ENDS);
      if value.result != 0 then [(head[name.begin..name.end - 1], head[value.begin..value.end - 1])] else []
    else []
  }

  /** The request line, whose target starts at `from`: None is answered with 400. */
  function TargetOf(head: bytes, from: nat, end: nat): (r: (bool, bytes))
    requires end <= |head|
  {
    var path := FindCharSpec(head, from, end, TARGET_ENDS);
    if path.result != 0 then (true, head[path.begin..path.end - 1]) else (false, [])
  }

  /** The line loop, standing at `begin` with `lineNo` lines behind it. */
  function ParseLines(data: Received, target: nat, begin: nat, lineNo: nat, req: Request): (r: (nat, Request))
    requires data.Valid()
    decreases data.part - begin
  {
    var line := Find(data.Head(), begin, data.part, LINE_ENDS);
    if line.result == 0 then (HEAD_TOO_LARGE, req)
    else if line.result <= 2 then (OK, req.(content := data.Content(line.end)))
    else if lineNo > 0 then
      ParseLines(data, target, line.end, lineNo + 1,
                 req.(headers := req.headers + FieldOf(data.Head(), begin, line.end)))
    else
      var (found, uri) := TargetOf(data.Head(), target, line.end);
      if found then ParseLines(data, target, line.end, lineNo + 1, req.(uri := uri)) else (BAD_REQUEST, req)
  }

  lemma StepSeparator(data: Received, target: nat, begin: nat, lineNo: nat, req: Request, line: MatchResult)
    requires data.Valid() && line == Find(data.Head(), begin, data.part, LINE_ENDS) && 1 <= line.result <= 2
    ensures ParseLines(data, target, begin, lineNo, req) == (OK, req.(content := data.Content(line.end)))
  {
  }

  lemma StepField(data: Received, target: nat, begin: nat, lineNo: nat, req: Request, line: MatchResult)
    requires data.Valid() && line == Find(data.Head(), begin, data.part, LINE_ENDS) && 2 < line.result && lineNo > 0
    ensures ParseLines(data, target, begin, lineNo, req) ==
            ParseLines(data, target, line.end, lineNo + 1,
                       req.(headers := req.headers + FieldOf(data.Head(), begin, line.end)))
  {
  }

  lemma StepTarget(data: Received, target: nat, begin: nat, req: Request, line: MatchResult)
    requires data.Valid() && line == Find(data.Head(), begin, data.part, LINE_ENDS) && 2 < line.result
    ensures var (found, uri) := TargetOf(data.Head(), target, line.end);
            ParseLines(data, target, begin, 0, req) ==
            if found then ParseLines(data, target, line.end, 1, req.(uri := uri)) else (BAD_REQUEST, req)
  {
  }

  /** What `http_parse_request` answers and stores. */
  function Parse(data: Received, req: Request): (nat, Request)
    requires data.Valid()
  {
    if data.length == 0 then (BAD_REQUEST, req)
    else
      var verb := MatchFrom(data.Head(), 0, data.part, METHODS, 0);
      if verb.result == 0 then (METHOD_NOT_ALLOWED, req)
      else ParseLines(data, verb.end, 0, 0, req.(verb := verb.result))
  }

  /** The scan for the query looks at an empty range, so it never finds a query. */
  lemma QueryScanIsEmpty(head: bytes, p: nat)
    requires p <= |head|
    ensures FindCharSpec(head, p, p, QUERY_MARK).result == 0
  {
  }

  lemma {:induction false} LinesLeaveParams(data: Received, target: nat, begin: nat, lineNo: nat, req: Request)
    requires data.Valid()
    ensures var got := ParseLines(data, target, begin, lineNo, req).1;
            got.params == req.params && got.verb == req.verb && req.headers <= got.headers
    decreases data.part - begin
  {
    var line := Find(data.Head(), begin, data.part, LINE_ENDS);
    if line.result > 2 {
      if lineNo > 0 {
        LinesLeaveParams(data, target, line.end, lineNo + 1,
                         req.(headers := req.headers + FieldOf(data.Head(), begin, line.end)));
      } else {
        var (found, uri) := TargetOf(data.Head(), target, line.end);
        if found {
          LinesLeaveParams(data, target, line.end, lineNo + 1, req.(uri := uri));
        }
      }
    }
  }

  /** No buffer whatsoever makes the parser fill in the query parameters. */
  lemma ParamsNeverFilled(data: Received, req: Request)
    requires data.Valid()
    ensures Parse(data, req).1.params == req.params
  {
    hide ParseLines;
    if data.length > 0 {
      var verb := MatchFrom(data.Head(), 0, data.part, METHODS, 0);
      LinesLeaveParams(data, verb.end, 0, 0, req.(verb := verb.result));
    }
  }

  class HttpRequest {
    var verb: nat
    var uri: bytes
    var content: bytes
    var params: bytes
    var headers: seq<(bytes, bytes)>

    function View(): Request
      reads this
    {
      Request(verb, uri, content, params, headers)
    }

    constructor ()
      ensures View() == Request(0, [], [], [], [])
    {
      verb, uri, content, params, headers := 0, [], [], [], [];
    }

    /** A line after the request line: records name and value, or nothing. */
    method ReadField(head: bytes, begin: nat, end: nat)
      requires end <= |head|
      modifies this
      ensures View() == old(View()).(headers := old(headers) + FieldOf(head, begin, end))
    {
      var name := FindChar(head, begin, end, NAME_ENDS);
      if name.result != 0 {
        if name.result == 1 {
          var value := FindChar(head, name.end, end, VALUE_ENDS);
          if value.result != 0 {
            headers := headers + [(head[name.begin..name.end - 1], head[value.begin..value.end - 1])];
          }
        }
      }
    }

    /** The request line: stores the target. The branch that would split off the query is
        never taken, because the scan for '?' is given an empty range. */
    method ReadTarget(head: bytes, begin: nat, end: nat) returns (found: bool)
      requires end <= |head|
      modifies this
      ensures found == TargetOf(head, begin, end).0
      ensures View() == if found then old(View()).(uri := TargetOf(head, begin, end).1) else old(View())
    {
      var path := FindChar(head, begin, end, TARGET_ENDS);
      if path.result == 0 {
        return false;
      }
      uri := head[path.begin..path.end - 1];
      var query := FindChar(head, path.end, path.end, QUERY_MARK);
      if query.result != 0 {
        QueryScanIsEmpty(head, path.end);
        assert false;
      }
      return true;
    }

    method ParseRequest(raw: ReadBuffer) returns (code: nat)
      requires raw.Valid() && raw.View().Valid() && raw.dataBuffer != null
      modifies this
      ensures (code, View()) == Parse(raw.View(), old(View()))
    {
      if raw.dataLength == 0 {
        return BAD_REQUEST;
      }
      ghost var data := raw.View();
      var head := raw.dataBuffer[..raw.dataPartLength];
      var end := raw.dataPartLength;
      assert head == data.Head() && end == |head|;
      var named := MatchValues(head, 0, end, METHODS);
      if named.result == 0 {
        return METHOD_NOT_ALLOWED;
      }
      verb := named.result;
      var lineBegin, lineNo := 0, 0;
      var line := FindValues(head, 0, end, LINE_ENDS);
      while line.result != 0
        invariant lineBegin <= end && line == Find(head, lineBegin, end, LINE_ENDS)
        invariant Parse(data, old(View())) == ParseLines(data, named.end, lineBegin, lineNo, View())
        decreases end - lineBegin
      {
        if line.result > 2 {
          if lineNo != 0 {
            ReadField(head, lineBegin, line.end);
          } else {
            var found := ReadTarget(head, named.end, line.end);
            if !found {
              return BAD_REQUEST;
            }
          }
        } else {
          content := raw.dataBuffer[if line.end < raw.dataLength then line.end else raw.dataLength..raw.dataLength];
          return OK;
        }
        lineBegin := line.end;
        line := FindValues(head, line.end, end, LINE_ENDS);
        lineNo := lineNo + 1;
      }
      return HEAD_TOO_LARGE;
    }
  }
}
