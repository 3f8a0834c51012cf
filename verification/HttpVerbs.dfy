/** The verbs by name: kernel/net/impl/protoimpl.h lists them once as needles and once as an
    enumeration, and the parser answers with the number of the enumeration. */
module HttpVerbs {
  import opened Bytes
  import opened FindMatch
  import opened ReadBuffers
  import opened HttpParser
  import opened HttpRoundTrip

  datatype Verb = GET | POST | PUT | HEAD | OPTIONS | DELETE | TRACE | CONNECT | PATCH

  function Name(v: Verb): string {
    match v
    case GET => "GET"
    case POST => "POST"
    case PUT => "PUT"
    case HEAD => "HEAD"
    case OPTIONS => "OPTIONS"
    case DELETE => "DELETE"
    case TRACE => "TRACE"
    case CONNECT => "CONNECT"
    case PATCH => "PATCH"
  }

  /** The value in `RequestMethod`, where 0 is UNSUPPORTED. */
  function Number(v: Verb): nat {
    match v
    case GET => 1
    case POST => 2
    case PUT => 3
    case HEAD => 4
    case OPTIONS => 5
    case DELETE => 6
    case TRACE => 7
    case CONNECT => 8
    case PATCH => 9
  }

  /** The octet is the capital letter, or the small letter that goes with it. */
  predicate IsLetter(b: byte, c: char) {
    b == c as int || ('A' <= c <= 'Z' && b == c as int - 'A' as int + 'a' as int)
  }

  /** The name in any letter case, and a blank. */
  predicate Spells(text: bytes, name: string) {
    && |text| == |name| + 1
    && (forall i :: 0 <= i < |name| ==> IsLetter(text[i], name[i]))
    && text[|name|] == 32
  }

  lemma IsLetterIffFolds(b: byte, c: char)
    requires 'A' <= c <= 'Z'
    ensures IsLetter(b, c) <==> Fold(b) == Fold(c as int)
  {
  }

  lemma BlankIffFolds(b: byte)
    ensures b == 32 <==> Fold(b) == Fold(32)
  {
  }

  /** The needle with the number of a verb is its name with a blank. */
  lemma NeedleOf(v: Verb)
    ensures 1 <= Number(v) <= |METHODS|
    ensures var (n, name) := (METHODS[Number(v) - 1], Name(v));
            |n| == |name| + 1 && n[|name|] == 32 && forall i :: 0 <= i < |name| ==> n[i] == name[i] as int && 'A' <= name[i] <= 'Z'
  {
    match v
    case GET => assert METHODS[0] == [71, 69, 84, 32];
    case POST => assert METHODS[1] == [80, 79, 83, 84, 32];
    case PUT => assert METHODS[2] == [80, 85, 84, 32];
    case HEAD => assert METHODS[3] == [72, 69, 65, 68, 32];
    case OPTIONS => assert METHODS[4] == [79, 80, 84, 73, 79, 78, 83, 32];
    case DELETE => assert METHODS[5] == [68, 69, 76, 69, 84, 69, 32];
    case TRACE => assert METHODS[6] == [84, 82, 65, 67, 69, 32];
    case CONNECT => assert METHODS[7] == [67, 79, 78, 78, 69, 67, 84, 32];
    case PATCH => assert METHODS[8] == [80, 65, 84, 67, 72, 32];
  }

  lemma SpellsIffFolds(text: bytes, v: Verb)
    ensures 1 <= Number(v) <= |METHODS|
    ensures Spells(text, Name(v)) <==> FoldEq(text, METHODS[Number(v) - 1])
  {
    NeedleOf(v);
    var n, name := METHODS[Number(v) - 1], Name(v);
    hide Name;
    hide Number;
    hide Fold;
    if |text| == |n| {
      forall i | 0 <= i < |name| ensures IsLetter(text[i], name[i]) <==> Fold(text[i]) == Fold(n[i]) {
        IsLetterIffFolds(text[i], name[i]);
      }
      BlankIffFolds(text[|name|]);
      hide IsLetter;
    }
  }

  /** Any number the parser can answer is that of a verb. */
  lemma VerbNumbered(n: nat) returns (v: Verb)
    requires 1 <= n <= |METHODS|
    ensures Number(v) == n
  {
    v := [GET, POST, PUT, HEAD, OPTIONS, DELETE, TRACE, CONNECT, PATCH][n - 1];
  }

  /** The head starts with the name of the verb, in any letter case, and a blank. */
  predicate StartsWith(head: bytes, v: Verb) {
    |Name(v)| + 1 <= |head| && Spells(head[..|Name(v)| + 1], Name(v))
  }

  lemma StartsIffMatches(head: bytes, v: Verb)
    ensures 1 <= Number(v) <= |METHODS|
    ensures StartsWith(head, v) <==> MatchesAt(head, 0, |head|, METHODS[Number(v) - 1])
  {
    NeedleOf(v);
    var n := METHODS[Number(v) - 1];
    if |n| <= |head| {
      var text := head[..|n|];
      SpellsIffFolds(text, v);
      hide Name;
      hide Number;
      hide Spells;
      hide Fold;
      assert forall i :: 0 <= i < |n| ==> head[0 + i] == text[i];
      assert FoldEq(text, n) <==> MatchesAt(head, 0, |head|, n);
    }
  }

  /** The parser answers the number of a verb exactly when the head starts with its name. */
  lemma NumberIff(head: bytes, v: Verb)
    ensures MatchFrom(head, 0, |head|, METHODS, 0).result == Number(v) <==> StartsWith(head, v)
  {
    hide MatchFrom;
    hide StartsWith;
    hide MatchesAt;
    hide PrefixFree;
    hide Number;
    StartsIffMatches(head, v);
    MethodsArePrefixFree();
    MatchPrefixFree(head, 0, |head|, METHODS, Number(v) - 1);
  }

  /** What a parse stores as the verb: the number of the verb the head starts with; and if it
      starts with none, then it answers 405 and stores nothing at all. */
  lemma VerbAnswered(data: Received, req: Request)
    requires data.Valid() && data.length > 0
    ensures forall v :: StartsWith(data.Head(), v) ==> Parse(data, req).0 != 405 && Parse(data, req).1.verb == Number(v)
    ensures (forall v :: !StartsWith(data.Head(), v)) ==> Parse(data, req) == (405, req)
  {
    var head := data.Head();
    var verb := MatchFrom(head, 0, data.part, METHODS, 0);
    hide MatchFrom;
    hide ParseLines;
    hide StartsWith;
    hide Number;
    MatchFromChooses(head, 0, data.part, METHODS, 0);
    if verb.result > 0 {
      LinesLeaveParams(data, verb.end, 0, 0, req.(verb := verb.result));
      LinesCodes(data, verb.end, 0, 0, req.(verb := verb.result));
      var v := VerbNumbered(verb.result);
      NumberIff(head, v);
    }
    forall v | StartsWith(head, v) ensures verb.result == Number(v) && verb.result > 0 {
      NumberIff(head, v);
      NumberPositive(v);
    }
  }

  lemma NumberPositive(v: Verb)
    ensures Number(v) > 0
  {
  }

  /** The line loop answers 0, 400 or 431. */
  lemma {:induction false} LinesCodes(data: Received, target: nat, begin: nat, lineNo: nat, req: Request)
    requires data.Valid()
    ensures ParseLines(data, target, begin, lineNo, req).0 in {0, 400, 431}
    decreases data.part - begin
  {
    var line := Find(data.Head(), begin, data.part, LINE_ENDS);
    if line.result > 2 {
      if lineNo > 0 {
        LinesCodes(data, target, line.end, lineNo + 1, req.(headers := req.headers + FieldOf(data.Head(), begin, line.end)));
      } else {
        var (found, uri) := TargetOf(data.Head(), target, line.end);
        if found {
          LinesCodes(data, target, line.end, lineNo + 1, req.(uri := uri));
        }
      }
    }
  }

  /** The round trip for a verb by its name. */
  lemma PrintParseVerb(data: Received, w: WireRequest, v: Verb, req: Request)
    requires Spells(w.spelling, Name(v)) && WellFormedRest(w) && Carries(data, w)
    ensures Parse(data, req) ==
            if w.fields == [] then (0, req.(verb := Number(v), content := w.body))
            else (0, req.(verb := Number(v), uri := w.target, content := w.body,
                          headers := req.headers + w.fields[..|w.fields| - 1]))
  {
    SpellsIffFolds(w.spelling, v);
    hide Parse;
    hide Number;
    PrintParse(data, w, Number(v), req);
  }
}
