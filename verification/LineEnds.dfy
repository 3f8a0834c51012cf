/** The scan for `HttpLineEndians` in terms of the octets of the text. */
module LineEnds {
  import opened Bytes
  import opened FindMatch
  import opened HttpParser

  /** CRLF stands at `p` and ends no later than `lim`. */
  predicate CrlfAt(buf: bytes, p: nat, lim: nat)
    requires lim <= |buf|
  {
    p + 2 <= lim && buf[p] == CR && buf[p + 1] == LF
  }

  /** Which line end, if any, stands at `p`: the order of the list makes the separators win. */
  lemma LineEndAt(buf: bytes, p: nat, lim: nat)
    requires p < lim <= |buf|
    ensures NeedleAt(buf, p, lim, LINE_ENDS, 0) ==
            if CrlfAt(buf, p, lim) then (if CrlfAt(buf, p + 2, lim) then 0 else 3)
            else if buf[p] != LF then 4
            else if p + 1 < lim && buf[p + 1] == LF then 1 else 2
  {
    var k := NeedleAt(buf, p, lim, LINE_ENDS, 0);
    assert LINE_ENDS[0] == [CR, LF, CR, LF] && LINE_ENDS[1] == [LF, LF] && LINE_ENDS[2] == [LF] && LINE_ENDS[3] == [CR, LF];
    MatchesPlain(buf, p, lim, LINE_ENDS[0]);
    MatchesPlain(buf, p, lim, LINE_ENDS[1]);
    MatchesPlain(buf, p, lim, LINE_ENDS[2]);
    MatchesPlain(buf, p, lim, LINE_ENDS[3]);
  }

  /** One position of the scan for a line end, in terms of the octets there. */
  lemma FindLineEnd(buf: bytes, p: nat, lim: nat)
    requires lim <= |buf|
    ensures Find(buf, p, lim, LINE_ENDS) ==
            if p >= lim then NO_MATCH
            else if CrlfAt(buf, p, lim) then
              (if CrlfAt(buf, p + 2, lim) then MatchResult(1, p, p + 4) else MatchResult(4, p, p + 2))
            else if buf[p] != LF then Find(buf, p + 1, lim, LINE_ENDS)
            else if p + 1 < lim && buf[p + 1] == LF then MatchResult(2, p, p + 2)
            else MatchResult(3, p, p + 1)
  {
    hide NeedleAt;
    hide MatchesAt;
    if p < lim {
      LineEndAt(buf, p, lim);
    }
  }

  /** Letter case plays no part for a needle of CR and LF. */
  lemma MatchesPlain(buf: bytes, p: nat, lim: nat, n: cstring)
    requires lim <= |buf| && 1 <= |n| <= 4 && forall i :: 0 <= i < |n| ==> n[i] == CR || n[i] == LF
    ensures MatchesAt(buf, p, lim, n) <==>
            && p + |n| <= lim && buf[p] == n[0]
            && (|n| > 1 ==> buf[p + 1] == n[1]) && (|n| > 2 ==> buf[p + 2] == n[2]) && (|n| > 3 ==> buf[p + 3] == n[3])
  {
    if p + |n| <= lim {
      assert forall i :: 0 <= i < |n| ==> (Fold(buf[p + i]) == Fold(n[i]) <==> buf[p + i] == n[i]);
      assert buf[p + 0] == buf[p];
    }
  }

  /** A line without CR and LF, closed by CRLF at `q`: the scan from `p` stops at `q`. */
  lemma {:induction false} FindCrlf(buf: bytes, p: nat, q: nat, lim: nat)
    requires p <= q && q + 2 <= lim <= |buf|
    requires forall i :: p <= i < q ==> buf[i] != CR && buf[i] != LF
    requires buf[q] == CR && buf[q + 1] == LF
    ensures Find(buf, p, lim, LINE_ENDS) ==
            if CrlfAt(buf, q + 2, lim) then MatchResult(1, q, q + 4) else MatchResult(4, q, q + 2)
    decreases q - p
  {
    hide Find;
    FindLineEnd(buf, p, lim);
    if p < q {
      FindCrlf(buf, p + 1, q, lim);
    }
  }
}
