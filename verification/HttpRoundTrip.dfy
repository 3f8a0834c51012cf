/** Parsing the printed form of a request (RFC 7230, section 3) gives the request back. */
module HttpRoundTrip {
  import opened Bytes
  import opened FindMatch
  import opened ReadBuffers
  import opened HttpParser
  import opened LineEnds

  const CRLF: bytes := [CR, LF]

  /** A request as it goes over the wire. `spelling` is the verb with the blank after it;
      a field value is everything between the colon and the end of the line. */
  datatype WireRequest = WireRequest(
    spelling: bytes, target: bytes, version: bytes, fields: seq<(bytes, bytes)>, body: bytes)

  function PrintFields(fields: seq<(bytes, bytes)>): bytes {
    if fields == [] then []
    else fields[0].0 + ([COLON] + (fields[0].1 + (CRLF + PrintFields(fields[1..]))))
  }

  function PrintHead(w: WireRequest): bytes {
    w.spelling + (w.target + ([SP] + (w.version + (CRLF + (PrintFields(w.fields) + CRLF)))))
  }

  function Print(w: WireRequest): bytes {
    PrintHead(w) + w.body
  }

  predicate Without(s: bytes, forbidden: bytes) {
    forall i :: 0 <= i < |s| ==> s[i] !in forbidden
  }

  predicate WellFormedField(f: (bytes, bytes)) {
    Without(f.0, [COLON, SP, CR, LF]) && Without(f.1, CRLF)
  }

  /** The request has the verb number `verb` and no delimiter inside a component. */
  predicate WellFormed(w: WireRequest, verb: nat) {
    1 <= verb <= |METHODS| && FoldEq(w.spelling, METHODS[verb - 1]) && WellFormedRest(w)
  }

  predicate WellFormedRest(w: WireRequest) {
    && Without(w.target, [SP, HT, CR, LF]) && Without(w.version, CRLF)
    && forall i :: 0 <= i < |w.fields| ==> WellFormedField(w.fields[i])
  }

  // ----- text at a place in the buffer -----

  predicate Holds(buf: bytes, p: nat, s: bytes): (r: bool)
    ensures r ==> p + |s| <= |buf|
  {
    p + |s| <= |buf| && forall i :: 0 <= i < |s| ==> buf[p + i] == s[i]
  }

  lemma HoldsSplit(buf: bytes, p: nat, a: bytes, b: bytes)
    ensures Holds(buf, p, a + b) <==> Holds(buf, p, a) && Holds(buf, p + |a|, b)
  {
    if Holds(buf, p, a + b) {
      forall i | 0 <= i < |a| ensures buf[p + i] == a[i] {
        assert (a + b)[i] == a[i];
      }
      forall i | 0 <= i < |b| ensures buf[p + |a| + i] == b[i] {
        assert (a + b)[|a| + i] == b[i];
        assert buf[p + (|a| + i)] == b[i];
      }
    }
    if Holds(buf, p, a) && Holds(buf, p + |a|, b) {
      forall i | 0 <= i < |a + b| ensures buf[p + i] == (a + b)[i] {
        if i >= |a| {
          assert buf[p + |a| + (i - |a|)] == b[i - |a|];
        }
      }
    }
  }

  lemma HoldsAt(buf: bytes, p: nat, s: bytes, i: nat)
    requires Holds(buf, p, s) && i < |s|
    ensures buf[p + i] == s[i]
  {
  }

  lemma HoldsOne(buf: bytes, p: nat, s: bytes)
    requires s != [] && Holds(buf, p, s)
    ensures Holds(buf, p, [s[0]])
  {
    HoldsAt(buf, p, s, 0);
  }

  lemma HoldsCrlf(buf: bytes, p: nat)
    requires Holds(buf, p, CRLF)
    ensures CrlfAt(buf, p, |buf|)
  {
    HoldsAt(buf, p, CRLF, 0);
    HoldsAt(buf, p, CRLF, 1);
  }

  lemma HoldsSlice(buf: bytes, p: nat, s: bytes)
    requires Holds(buf, p, s)
    ensures buf[p..p + |s|] == s
  {
  }

  // ----- fields -----

  /** A text free of the delimiters, followed by the first delimiter of the list. */
  lemma ScanTo(buf: bytes, p: nat, s: bytes, lim: nat, list: cstring)
    requires list != [] && Holds(buf, p, s) && Without(s, list) && p + |s| < lim <= |buf|
    requires Holds(buf, p + |s|, [list[0]])
    ensures FindCharSpec(buf, p, lim, list) == MatchResult(1, p, p + |s| + 1)
    ensures buf[p..p + |s|] == s
  {
    var q := p + |s|;
    HoldsAt(buf, q, [list[0]], 0);
    forall i | p <= i < q ensures buf[i] !in list {
      HoldsAt(buf, p, s, i - p);
    }
    ScanCharStops(buf, p, p, q, lim, list);
    HoldsSlice(buf, p, s);
  }

  lemma FieldRecorded(buf: bytes, p: nat, f: (bytes, bytes))
    requires WellFormedField(f)
    requires Holds(buf, p, f.0) && Holds(buf, p + |f.0|, [COLON]) && Holds(buf, p + |f.0| + 1, f.1)
    requires Holds(buf, p + |f.0| + 1 + |f.1|, CRLF)
    ensures FieldOf(buf, p, p + |f.0| + 1 + |f.1| + 2) == [f]
  {
    hide FindCharSpec;
    hide Holds;
    var c := p + |f.0|;
    var q := c + 1 + |f.1|;
    ScanTo(buf, p, f.0, q + 2, NAME_ENDS);
    HoldsOne(buf, q, CRLF);
    ScanTo(buf, c + 1, f.1, q + 2, VALUE_ENDS);
    var name := FindCharSpec(buf, p, q + 2, NAME_ENDS);
    assert name == MatchResult(1, p, c + 1);
    var value := FindCharSpec(buf, name.end, q + 2, VALUE_ENDS);
    assert value == MatchResult(1, c + 1, q + 1);
    assert FieldOf(buf, p, q + 2) == [(buf[p..c], buf[c + 1..q])];
  }

  lemma FieldHasNoLineEnd(buf: bytes, p: nat, f: (bytes, bytes))
    requires WellFormedField(f)
    requires Holds(buf, p, f.0) && Holds(buf, p + |f.0|, [COLON]) && Holds(buf, p + |f.0| + 1, f.1)
    ensures forall i :: p <= i < p + |f.0| + 1 + |f.1| ==> buf[i] != CR && buf[i] != LF
  {
    var c := p + |f.0|;
    HoldsAt(buf, c, [COLON], 0);
    forall i | p <= i < c + 1 + |f.1| ensures buf[i] != CR && buf[i] != LF {
      if i < c {
        assert buf[p + (i - p)] == f.0[i - p];
      } else if i > c {
        assert buf[c + 1 + (i - c - 1)] == f.1[i - c - 1];
      }
    }
  }

  /** What the buffer holds at `p` when the fields and the closing empty line stand there. */
  lemma FieldsHold(buf: bytes, p: nat, fields: seq<(bytes, bytes)>)
    requires fields != [] && Holds(buf, p, PrintFields(fields) + CRLF)
    ensures var f := fields[0];
            && Holds(buf, p, f.0) && Holds(buf, p + |f.0|, [COLON]) && Holds(buf, p + |f.0| + 1, f.1)
            && Holds(buf, p + |f.0| + 1 + |f.1|, CRLF)
            && Holds(buf, p + |f.0| + 1 + |f.1| + 2, PrintFields(fields[1..]) + CRLF)
            && |PrintFields(fields)| == |f.0| + 1 + |f.1| + 2 + |PrintFields(fields[1..])|
  {
    hide Holds;
    var f, rest := fields[0], PrintFields(fields[1..]);
    HoldsSplit(buf, p, PrintFields(fields), CRLF);
    HoldsSplit(buf, p, f.0, [COLON] + (f.1 + (CRLF + rest)));
    HoldsSplit(buf, p + |f.0|, [COLON], f.1 + (CRLF + rest));
    HoldsSplit(buf, p + |f.0| + 1, f.1, CRLF + rest);
    HoldsSplit(buf, p + |f.0| + 1 + |f.1|, CRLF, rest);
    HoldsSplit(buf, p + |f.0| + 1 + |f.1| + 2, rest, CRLF);
  }

  /** The line end found after the first field: the separator if it is the last field. */
  lemma FieldLine(buf: bytes, p: nat, lim: nat, fields: seq<(bytes, bytes)>)
    requires fields != [] && lim == |buf| && Holds(buf, p, PrintFields(fields) + CRLF)
    requires forall i :: 0 <= i < |fields| ==> WellFormedField(fields[i])
    ensures var q := p + |fields[0].0| + 1 + |fields[0].1|;
            Find(buf, p, lim, LINE_ENDS) == if |fields| == 1 then MatchResult(1, q, q + 4) else MatchResult(4, q, q + 2)
  {
    hide Find;
    hide Holds;
    hide WellFormedField;
    var f := fields[0];
    var q := p + |f.0| + 1 + |f.1|;
    FieldsHold(buf, p, fields);
    FieldHasNoLineEnd(buf, p, f);
    HoldsCrlf(buf, q);
    FindCrlf(buf, p, q, lim);
    if |fields| == 1 {
      assert PrintFields(fields[1..]) + CRLF == CRLF;
      HoldsCrlf(buf, q + 2);
    } else {
      NoEmptyLine(buf, q + 2, fields[1..]);
    }
  }

  /** A field does not look like the empty line that ends the head. */
  lemma NoEmptyLine(buf: bytes, p: nat, fields: seq<(bytes, bytes)>)
    requires fields != [] && Holds(buf, p, PrintFields(fields) + CRLF) && WellFormedField(fields[0])
    ensures p < |buf| && buf[p] != CR
  {
    FieldsHold(buf, p, fields);
    FieldHasNoLineEnd(buf, p, fields[0]);
  }

  /** Standing after the request line, with n >= 1 fields ahead: all fields but the last one
      are recorded, the last one is taken as the separator, and the body follows it. */
  lemma {:induction false} ParseFields(data: Received, target: nat, p: nat, lineNo: nat, req: Request, fields: seq<(bytes, bytes)>)
    requires data.Valid() && lineNo > 0 && fields != []
    requires forall i :: 0 <= i < |fields| ==> WellFormedField(fields[i])
    requires Holds(data.Head(), p, PrintFields(fields) + CRLF)
    ensures ParseLines(data, target, p, lineNo, req) ==
            (OK, req.(headers := req.headers + fields[..|fields| - 1],
                      content := data.Content(p + |PrintFields(fields)| + 2)))
    decreases |fields|
  {
    hide ParseLines;
    hide Find;
    hide FieldOf;
    hide Holds;
    var f := fields[0];
    var q := p + |f.0| + 1 + |f.1|;
    FieldLine(data.Head(), p, data.part, fields);
    FieldsHold(data.Head(), p, fields);
    if |fields| == 1 {
      assert req.headers + fields[..0] == req.headers;
      assert PrintFields(fields[1..]) == [];
      StepSeparator(data, target, p, lineNo, req, MatchResult(1, q, q + 4));
    } else {
      FieldRecorded(data.Head(), p, f);
      StepField(data, target, p, lineNo, req, MatchResult(4, q, q + 2));
      ParseFields(data, target, q + 2, lineNo + 1, req.(headers := req.headers + [f]), fields[1..]);
      assert req.headers + [f] + fields[1..][..|fields| - 2] == req.headers + fields[..|fields| - 1];
    }
  }

  // ----- request line -----

  lemma MethodsArePrefixFree()
    ensures PrefixFree(METHODS)
  {
    forall i, j | 0 <= i < |METHODS| && 0 <= j < |METHODS| && i != j
      ensures !MatchesAt(METHODS[i], 0, |METHODS[i]|, METHODS[j])
    {
      var a, b := METHODS[i], METHODS[j];
      assert Fold(a[0]) == a[0] && Fold(a[1]) == a[1] && Fold(b[0]) == b[0] && Fold(b[1]) == b[1];
      assert a[0] != b[0] || a[1] != b[1];
      assert Fold(a[0 + 0]) != Fold(b[0]) || Fold(a[0 + 1]) != Fold(b[1]);
    }
  }

  lemma VerbRecognised(data: Received, w: WireRequest, verb: nat)
    requires data.Valid() && WellFormed(w, verb)
    requires Holds(data.Head(), 0, w.spelling)
    ensures MatchFrom(data.Head(), 0, data.part, METHODS, 0) == MatchResult(verb, 0, |w.spelling|)
  {
    var head := data.Head();
    MethodsArePrefixFree();
    assert forall k :: 0 <= k < |w.spelling| ==> head[0 + k] == w.spelling[k];
    assert MatchesAt(head, 0, data.part, METHODS[verb - 1]);
    MatchPrefixFree(head, 0, data.part, METHODS, verb - 1);
    MatchFromChooses(head, 0, data.part, METHODS, 0);
  }

  lemma VerbHasNoLineEnd(w: WireRequest, verb: nat)
    requires WellFormed(w, verb)
    ensures Without(w.spelling, CRLF)
  {
    var n := METHODS[verb - 1];
    assert forall i :: 0 <= i < |n| ==> 32 <= n[i] <= 90;
    forall i | 0 <= i < |w.spelling| ensures w.spelling[i] !in CRLF {
      assert Fold(w.spelling[i]) == Fold(n[i]);
    }
  }

  lemma HeadHolds(buf: bytes, w: WireRequest)
    requires Holds(buf, 0, PrintHead(w))
    ensures var t := |w.spelling|;
            var b := t + |w.target|;
            var e := b + 1 + |w.version|;
            && Holds(buf, 0, w.spelling) && Holds(buf, t, w.target) && Holds(buf, b, [SP]) && Holds(buf, b + 1, w.version)
            && Holds(buf, e, CRLF) && Holds(buf, e + 2, PrintFields(w.fields) + CRLF)
            && |PrintHead(w)| == e + 2 + |PrintFields(w.fields)| + 2
            && (w.fields == [] ==> |PrintHead(w)| == e + 4)
  {
    var t := |w.spelling|;
    var b := t + |w.target|;
    var fs := PrintFields(w.fields) + CRLF;
    HoldsSplit(buf, 0, w.spelling, w.target + ([SP] + (w.version + (CRLF + fs))));
    HoldsSplit(buf, t, w.target, [SP] + (w.version + (CRLF + fs)));
    HoldsSplit(buf, b, [SP], w.version + (CRLF + fs));
    HoldsSplit(buf, b + 1, w.version, CRLF + fs);
    HoldsSplit(buf, b + 1 + |w.version|, CRLF, fs);
  }

  /** Nothing in the request line, up to its end, is a CR or an LF. */
  lemma RequestLineHasNoLineEnd(buf: bytes, w: WireRequest, verb: nat)
    requires WellFormed(w, verb) && Holds(buf, 0, PrintHead(w))
    ensures forall i :: 0 <= i < |w.spelling| + |w.target| + 1 + |w.version| ==> buf[i] != CR && buf[i] != LF
  {
    HeadHolds(buf, w);
    VerbHasNoLineEnd(w, verb);
    var t := |w.spelling|;
    var b := t + |w.target|;
    forall i | 0 <= i < b + 1 + |w.version| ensures buf[i] != CR && buf[i] != LF {
      if i < t {
        assert buf[0 + i] == w.spelling[i];
      } else if i < b {
        assert buf[t + (i - t)] == w.target[i - t];
      } else if i == b {
        HoldsAt(buf, b, [SP], 0);
      } else {
        assert buf[b + 1 + (i - b - 1)] == w.version[i - b - 1];
      }
    }
  }

  lemma TargetRead(buf: bytes, w: WireRequest, verb: nat, end: nat)
    requires WellFormed(w, verb) && Holds(buf, 0, PrintHead(w))
    requires |w.spelling| + |w.target| < end <= |buf|
    ensures TargetOf(buf, |w.spelling|, end) == (true, w.target)
  {
    HeadHolds(buf, w);
    ScanTo(buf, |w.spelling|, w.target, end, TARGET_ENDS);
  }

  /** The line end found after the request line: the separator if there is no field. */
  lemma RequestLine(buf: bytes, lim: nat, w: WireRequest, verb: nat)
    requires WellFormed(w, verb) && lim == |buf| && Holds(buf, 0, PrintHead(w))
    ensures var e := |w.spelling| + |w.target| + 1 + |w.version|;
            Find(buf, 0, lim, LINE_ENDS) == if w.fields == [] then MatchResult(1, e, e + 4) else MatchResult(4, e, e + 2)
  {
    HeadHolds(buf, w);
    RequestLineHasNoLineEnd(buf, w, verb);
    var e := |w.spelling| + |w.target| + 1 + |w.version|;
    HoldsCrlf(buf, e);
    FindCrlf(buf, 0, e, lim);
    if w.fields == [] {
      assert PrintFields(w.fields) + CRLF == CRLF;
      HoldsCrlf(buf, e + 2);
    } else {
      NoEmptyLine(buf, e + 2, w.fields);
    }
  }

  /** `data` received the printed request, and its head part covers the whole head. */
  predicate Carries(data: Received, w: WireRequest) {
    && data.Valid() && data.length == |Print(w)| && data.data[..data.length] == Print(w)
    && |PrintHead(w)| <= data.part
  }

  lemma CarriesHead(data: Received, w: WireRequest)
    requires Carries(data, w)
    ensures Holds(data.Head(), 0, PrintHead(w))
    ensures data.Content(|PrintHead(w)|) == w.body
  {
    forall i | 0 <= i < |PrintHead(w)| ensures data.Head()[0 + i] == PrintHead(w)[i] {
      assert data.Head()[i] == data.data[..data.length][i] == Print(w)[i];
    }
    assert Print(w)[|PrintHead(w)|..] == w.body;
    assert data.data[|PrintHead(w)|..data.length] == data.data[..data.length][|PrintHead(w)|..];
  }

  /** The round trip. The buffer starts with the printed request, whose head lies within the
      head part; anything may follow the received octets. The parser answers 0 and gives
      back the verb and the body. With n >= 1 fields it gives back the exact target and, in
      order, the first n-1 fields; with none it leaves the target as it was. */
  lemma PrintParse(data: Received, w: WireRequest, verb: nat, req: Request)
    requires WellFormed(w, verb) && Carries(data, w)
    ensures Parse(data, req) ==
            if w.fields == [] then (OK, req.(verb := verb, content := w.body))
            else (OK, req.(verb := verb, uri := w.target, content := w.body,
                           headers := req.headers + w.fields[..|w.fields| - 1]))
  {
    hide ParseLines;
    hide Find;
    hide Holds;
    hide TargetOf;
    hide MatchFrom;
    hide PrintHead;
    hide PrintFields;
    var head := data.Head();
    CarriesHead(data, w);
    HeadHolds(head, w);
    VerbRecognised(data, w, verb);
    RequestLine(head, data.part, w, verb);
    var e := |w.spelling| + |w.target| + 1 + |w.version|;
    assert data.length > 0;
    if w.fields == [] {
      StepSeparator(data, |w.spelling|, 0, 0, req.(verb := verb), MatchResult(1, e, e + 4));
    } else {
      TargetRead(head, w, verb, e + 2);
      StepTarget(data, |w.spelling|, 0, req.(verb := verb), MatchResult(4, e, e + 2));
      ParseFields(data, |w.spelling|, e + 2, 1, req.(verb := verb, uri := w.target), w.fields);
    }
  }

  /** Starting from an empty request, parsing recovers all of the wire request exactly when
      nothing was lost: the fields come back in full only if there are none, and the target
      comes back only if there is a field (or the target is empty). */
  lemma WhatTheParserLoses(data: Received, w: WireRequest, verb: nat)
    requires WellFormed(w, verb) && Carries(data, w)
    ensures var r := Parse(data, Request(0, [], [], [], [])).1;
            && (r.headers == w.fields <==> w.fields == [])
            && (r.uri == w.target <==> w.fields != [] || w.target == [])
  {
    PrintParse(data, w, verb, Request(0, [], [], [], []));
    if w.fields != [] {
      assert |w.fields[..|w.fields| - 1]| != |w.fields|;
    }
  }

  /** From the socket to the request. However the peer's octets are cut into chunks, when the
      peer sends the printed request and reading got past the head, the parser gives the
      same result as for the whole request, with as much of the body as was received. */
  lemma ReadThenParse(answers: seq<Answer>, max: nat, data: Received, w: WireRequest, verb: nat, req: Request)
    requires data.Valid() && WellFormed(w, verb) && |PrintHead(w)| <= data.part
    requires data.data[..data.length] == Concat(Stored(answers, 0, max))
    requires Stream(answers) == Print(w) && |PrintHead(w)| <= data.length
    ensures data.length <= |Print(w)|
    ensures var (code, got) := Parse(data, req);
            && code == OK && got.verb == verb
            && got.content == w.body[..data.length - |PrintHead(w)|]
            && got.uri == (if w.fields == [] then req.uri else w.target)
            && got.headers == req.headers + w.fields[..if w.fields == [] then 0 else |w.fields| - 1]
  {
    hide Parse;
    StoredIsStreamPrefix(answers, 0, max);
    var seen := w.(body := w.body[..data.length - |PrintHead(w)|]);
    assert data.data[..data.length] == Print(w)[..data.length] == Print(seen);
    PrintParse(data, seen, verb, req);
    assert req.headers + w.fields[..0] == req.headers;
  }

  /** When the calls succeed and each FIONREAD before the last chunk reports octets that leave
      room, the whole request is read, and parsing it gives the round trip. */
  lemma ReadAllThenParse(answers: seq<Answer>, max: nat, data: Received, w: WireRequest, verb: nat, req: Request)
    requires data.Valid() && WellFormed(w, verb) && |PrintHead(w)| <= data.part
    requires data.data[..data.length] == Concat(Stored(answers, 0, max))
    requires Stream(answers) == Print(w) && 0 < max && Sent(answers, |answers|) <= max
    requires forall i :: 0 <= i < |answers| ==> answers[i].Arrived?
    requires forall i :: 0 <= i < |answers| - 1 ==>
               && answers[i].chunk != [] && answers[i].polled && 0 < answers[i].pending
               && Sent(answers, i + 1) + answers[i].pending < max
    ensures Parse(data, req) ==
            if w.fields == [] then (OK, req.(verb := verb, content := w.body))
            else (OK, req.(verb := verb, uri := w.target, content := w.body,
                           headers := req.headers + w.fields[..|w.fields| - 1]))
  {
    hide Parse;
    AllIsStored(answers, 0, max);
    PrintParse(data, w, verb, req);
  }
}
