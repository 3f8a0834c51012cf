/** The three scanners of ci/utils/findmatch.h. A pointer into the buffer is an offset. */
module FindMatch {
  import opened Arithmetic
  import opened Bytes

  /** `match_result`. `result` is 0 when nothing was found; the null pointers that go
      with a default-constructed result are written as offset 0. */
  datatype MatchResult = MatchResult(result: nat, begin: nat, end: nat)

  const NO_MATCH := MatchResult(0, 0, 0)

  /** Needle `n` occurs at offset `p` and ends no later than `lim`, up to letter case. */
  predicate MatchesAt(buf: bytes, p: nat, lim: nat, n: bytes)
    requires lim <= |buf|
  {
    p + |n| <= lim && forall k :: 0 <= k < |n| ==> Fold(buf[p + k]) == Fold(n[k])
  }

  // ----- match_values -----

  /** The text at `p` and the needle differ at a position that both of them have. */
  predicate Diverges(buf: bytes, p: nat, lim: nat, n: bytes)
    requires lim <= |buf|
  {
    exists k :: 0 <= k < |n| && p + k < lim && Fold(buf[p + k]) != Fold(n[k])
  }

  /** Needle `i` is chosen: it is a prefix of the text, and every earlier needle was
      abandoned because of a differing octet. */
  predicate Chosen(buf: bytes, from: nat, lim: nat, needles: seq<cstring>, i: nat)
    requires lim <= |buf|
  {
    && i < |needles|
    && MatchesAt(buf, from, lim, needles[i])
    && forall j :: 0 <= j < i ==> Diverges(buf, from, lim, needles[j])
  }

  /** What `match_values` computes, from needle `i` on. */
  function MatchFrom(buf: bytes, from: nat, lim: nat, needles: seq<cstring>, i: nat): MatchResult
    requires lim <= |buf| && i <= |needles|
    decreases |needles| - i
  {
    if i == |needles| then NO_MATCH
    else if MatchesAt(buf, from, lim, needles[i]) then MatchResult(i + 1, from, from + |needles[i]|)
    else if Diverges(buf, from, lim, needles[i]) then MatchFrom(buf, from, lim, needles, i + 1)
    else NO_MATCH
  }

  method MatchValues(buf: bytes, from: nat, lim: nat, needles: seq<cstring>) returns (r: MatchResult)
    requires from <= lim <= |buf| && 0 < |needles|
    ensures r == MatchFrom(buf, from, lim, needles, 0)
  {
    var needleIt, list := 0, 0;
    var haystackIt := from;
    var found := false;
    var needleIndex := |needles|;
    while needleIndex != 0
      invariant 0 <= needleIndex && 0 <= list && list + needleIndex == |needles|
      invariant !found && haystackIt == from + needleIt && haystackIt <= lim
      invariant needleIndex != 0 ==> needleIt <= |needles[list]|
      invariant needleIndex != 0 ==> forall k :: 0 <= k < needleIt ==> Fold(buf[from + k]) == Fold(needles[list][k])
      invariant MatchFrom(buf, from, lim, needles, 0) == MatchFrom(buf, from, lim, needles, list)
      decreases needleIndex, (lim - haystackIt)
    {
      found := needleIt == |needles[list]|;
      if found || haystackIt >= lim {
        break;
      }
      if Fold(buf[haystackIt]) != Fold(needles[list][needleIt]) {
        assert Diverges(buf, from, lim, needles[list]);
        needleIndex := needleIndex - 1;
        list := list + 1;
        needleIt := 0;
        haystackIt := from;
        continue;
      }
      needleIt := needleIt + 1;
      haystackIt := haystackIt + 1;
    }
    if found {
      return MatchResult(1 + |needles| - needleIndex, from, haystackIt);
    }
    return NO_MATCH;
  }

  /** For any needle list, `match_values` answers i+1 exactly when needle `i` is chosen. */
  lemma {:induction false} MatchFromChooses(buf: bytes, from: nat, lim: nat, needles: seq<cstring>, i: nat)
    requires lim <= |buf| && i <= |needles|
    requires forall j :: 0 <= j < i ==> Diverges(buf, from, lim, needles[j])
    ensures var r := MatchFrom(buf, from, lim, needles, i);
            && r.result <= |needles|
            && (forall k: nat :: k < |needles| ==> (r.result == k + 1 <==> Chosen(buf, from, lim, needles, k)))
            && (r.result > 0 ==> r.begin == from && r.end == from + |needles[r.result - 1]|)
    decreases |needles| - i
  {
    if i < |needles| && !MatchesAt(buf, from, lim, needles[i]) && Diverges(buf, from, lim, needles[i]) {
      MatchFromChooses(buf, from, lim, needles, i + 1);
    }
  }

  /** No needle is, up to letter case, the beginning of another one. */
  predicate PrefixFree(needles: seq<cstring>) {
    forall i, j :: 0 <= i < |needles| && 0 <= j < |needles| && i != j ==> !MatchesAt(needles[i], 0, |needles[i]|, needles[j])
  }

  /** With a prefix-free list the answer is i+1 exactly when needle `i` is a prefix,
      although the scan gives up as soon as the text runs out inside some needle. */
  lemma MatchPrefixFree(buf: bytes, from: nat, lim: nat, needles: seq<cstring>, i: nat)
    requires from <= lim <= |buf| && i < |needles| && PrefixFree(needles)
    ensures MatchFrom(buf, from, lim, needles, 0).result == i + 1 <==> MatchesAt(buf, from, lim, needles[i])
  {
    hide MatchFrom;
    MatchFromChooses(buf, from, lim, needles, 0);
    if MatchesAt(buf, from, lim, needles[i]) {
      forall j: nat | j < i ensures Diverges(buf, from, lim, needles[j]) {
        PrefixFreeDiverges(buf, from, lim, needles[i], needles[j]);
      }
      assert Chosen(buf, from, lim, needles, i);
    } else {
      assert !Chosen(buf, from, lim, needles, i);
    }
  }

  /** A text that starts with `a` diverges from every `b` unrelated to `a` by prefix. */
  lemma PrefixFreeDiverges(buf: bytes, from: nat, lim: nat, a: bytes, b: bytes)
    requires lim <= |buf| && MatchesAt(buf, from, lim, a)
    requires !MatchesAt(a, 0, |a|, b) && !MatchesAt(b, 0, |b|, a)
    ensures Diverges(buf, from, lim, b)
  {
    if |b| <= |a| {
      var k :| 0 <= k < |b| && Fold(a[0 + k]) != Fold(b[k]);
      assert Fold(buf[from + k]) == Fold(a[k]);
    } else {
      var k :| 0 <= k < |a| && Fold(b[0 + k]) != Fold(a[k]);
      assert Fold(buf[from + k]) == Fold(a[k]);
    }
  }

  // ----- find_values -----

  /** The lowest needle index, from `i` on, that matches at `p`; |needles| when none does. */
  function NeedleAt(buf: bytes, p: nat, lim: nat, needles: seq<cstring>, i: nat): (k: nat)
    requires lim <= |buf| && i <= |needles|
    ensures i <= k <= |needles|
    ensures k < |needles| ==> MatchesAt(buf, p, lim, needles[k])
    ensures forall j :: i <= j < k ==> !MatchesAt(buf, p, lim, needles[j])
    decreases |needles| - i
  {
    if i == |needles| || MatchesAt(buf, p, lim, needles[i]) then i else NeedleAt(buf, p, lim, needles, i + 1)
  }

  /** What `find_values` computes. */
  function Find(buf: bytes, from: nat, lim: nat, needles: seq<cstring>): (r: MatchResult)
    requires lim <= |buf|
    ensures r.result > 0 ==>
      from <= r.begin < lim && r.result <= |needles| && r.end == r.begin + |needles[r.result - 1]| <= lim
    decreases lim - from
  {
    if from >= lim then NO_MATCH
    else
      var k := NeedleAt(buf, from, lim, needles, 0);
      if k < |needles| then MatchResult(k + 1, from, from + |needles[k]|) else Find(buf, from + 1, lim, needles)
  }

  /** The inner loop of `find_values`: compares one needle at one offset. */
  method TryNeedle(buf: bytes, p: nat, lim: nat, needle: cstring) returns (found: bool, h: nat)
    requires p < lim <= |buf| && needle != []
    ensures found == MatchesAt(buf, p, lim, needle)
    ensures found ==> h + 1 == p + |needle|
  {
    var n := 0;
    h, found := p, false;
    while h < lim && Fold(buf[h]) == Fold(needle[n])
      invariant 0 <= n < |needle| && h == p + n <= lim && !found
      invariant forall i :: 0 <= i < n ==> Fold(buf[p + i]) == Fold(needle[i])
    {
      found := n + 1 == |needle|;
      if found {
        return;
      }
      n, h := n + 1, h + 1;
    }
  }

  method FindValues(buf: bytes, from: nat, lim: nat, needles: seq<cstring>) returns (r: MatchResult)
    requires lim <= |buf| && 0 < |needles|
    requires forall i :: 0 <= i < |needles| ==> needles[i] != []
    ensures r == Find(buf, from, lim, needles)
  {
    hide MatchesAt;
    hide Find;
    hide FindAt;
    hide Mod;
    var size := |needles|;
    var needleIt := needles[0];
    FindStart(buf, from, lim, needles);
    assert Mod(0, size) == 0 by { ModUnique(0, size, 0, 0); }
    var haystackIt, needleIndex := from, 0;
    ghost var k := 0;
    while haystackIt < lim
      invariant k == Mod(needleIndex, size) < size && needleIt == needles[k]
      invariant haystackIt < lim ==> Find(buf, from, lim, needles) == FindAt(buf, haystackIt, lim, needles, k)
      invariant haystackIt >= lim ==> Find(buf, from, lim, needles) == NO_MATCH
      decreases (lim - haystackIt), size - k
    {
      var found, h := TryNeedle(buf, haystackIt, lim, needleIt);
      FindAtStep(buf, haystackIt, lim, needles, k);
      if found {
        return MatchResult(1 + Mod(needleIndex, size), haystackIt, h + 1);
      }
      ModSucc(needleIndex, size);
      needleIndex := needleIndex + 1;
      needleIt := needles[Mod(needleIndex, size)];
      if Mod(needleIndex, size) == 0 {
        haystackIt := haystackIt + 1;
      }
      k := Mod(needleIndex, size);
    }
    return NO_MATCH;
  }

  /** The search at offset `p` with the needles before `k` already tried there. */
  function FindAt(buf: bytes, p: nat, lim: nat, needles: seq<cstring>, k: nat): MatchResult
    requires p < lim <= |buf| && k <= |needles|
  {
    var j := NeedleAt(buf, p, lim, needles, k);
    if j < |needles| then MatchResult(j + 1, p, p + |needles[j]|) else Find(buf, p + 1, lim, needles)
  }

  lemma FindStart(buf: bytes, from: nat, lim: nat, needles: seq<cstring>)
    requires lim <= |buf|
    ensures Find(buf, from, lim, needles) == if from < lim then FindAt(buf, from, lim, needles, 0) else NO_MATCH
  {
    hide MatchesAt;
    hide NeedleAt;
  }

  lemma FindAtStep(buf: bytes, p: nat, lim: nat, needles: seq<cstring>, k: nat)
    requires p < lim <= |buf| && k < |needles|
    ensures MatchesAt(buf, p, lim, needles[k]) ==>
      FindAt(buf, p, lim, needles, k) == MatchResult(k + 1, p, p + |needles[k]|)
    ensures !MatchesAt(buf, p, lim, needles[k]) && k + 1 < |needles| ==>
      FindAt(buf, p, lim, needles, k) == FindAt(buf, p, lim, needles, k + 1)
    ensures !MatchesAt(buf, p, lim, needles[k]) && k + 1 == |needles| ==>
      FindAt(buf, p, lim, needles, k) == if p + 1 < lim then FindAt(buf, p + 1, lim, needles, 0) else NO_MATCH
  {
    hide MatchesAt;
    hide Find;
    FindStart(buf, p + 1, lim, needles);
  }

  /** The answer is the leftmost occurrence of any needle, and the lowest needle there;
      0 is answered only when no needle occurs anywhere in the range. */
  lemma {:induction false} FindLeftmost(buf: bytes, from: nat, lim: nat, needles: seq<cstring>)
    requires lim <= |buf|
    ensures var r := Find(buf, from, lim, needles);
            && r.result <= |needles|
            && (r.result > 0 ==>
                && from <= r.begin < lim && r.end == r.begin + |needles[r.result - 1]| <= lim
                && MatchesAt(buf, r.begin, lim, needles[r.result - 1])
                && forall j :: 0 <= j < r.result - 1 ==> !MatchesAt(buf, r.begin, lim, needles[j]))
            && forall p, j :: from <= p < (if r.result > 0 then r.begin else lim) && 0 <= j < |needles|
                              ==> !MatchesAt(buf, p, lim, needles[j])
    decreases lim - from
  {
    hide MatchesAt;
    hide NeedleAt;
    if from < lim {
      FindLeftmost(buf, from + 1, lim, needles);
    }
  }

  // ----- find_char -----

  /** `(charlist - ch) + 1` for the delimiter at index `k`, as a `size_t`: index 0 gives 1,
      index 1 gives 0, which reads as "not found", and index k >= 2 gives 2^64 + 1 - k. */
  function DelimiterCode(k: nat): nat {
    Wrap64(1 - k)
  }

  function IndexOf(c: byte, list: bytes): (k: nat)
    ensures k <= |list|
    ensures k < |list| ==> list[k] == c
    ensures forall j :: 0 <= j < k ==> list[j] != c
  {
    if list == [] || list[0] == c then 0 else 1 + IndexOf(c, list[1..])
  }

  /** What `find_char` computes, with the scan standing at `it`. */
  function ScanChar(buf: bytes, from: nat, it: nat, lim: nat, list: cstring): (r: MatchResult)
    requires lim <= |buf|
    ensures r.begin == from && (r.result != 0 ==> it < r.end <= lim && buf[r.end - 1] in list)
    decreases lim - it
  {
    if it >= lim then MatchResult(0, from, it)
    else
      var k := IndexOf(buf[it], list);
      if k < |list| then MatchResult(DelimiterCode(k), from, it + 1) else ScanChar(buf, from, it + 1, lim, list)
  }

  function FindCharSpec(buf: bytes, from: nat, lim: nat, list: cstring): (r: MatchResult)
    requires lim <= |buf|
    ensures r.begin == from && (r.result != 0 ==> from < r.end <= lim && buf[r.end - 1] in list)
  {
    ScanChar(buf, from, from, lim, list)
  }

  lemma ScanCharStart(buf: bytes, from: nat, lim: nat, list: cstring)
    requires lim <= |buf|
    ensures from >= lim ==> ScanChar(buf, from, from, lim, list) == MatchResult(0, from, from)
    ensures FindCharSpec(buf, from, lim, list) == ScanChar(buf, from, from, lim, list)
  {
  }

  /** The codes of the delimiters in a list shorter than 2^64. */
  lemma DelimiterCodes(k: nat)
    requires k < 0x1_0000_0000_0000_0000
    ensures DelimiterCode(k) == if k == 0 then 1 else if k == 1 then 0 else 0x1_0000_0000_0000_0001 - k
  {
  }

  lemma CodeWraps(k: nat)
    ensures Wrap64(Wrap64(0 - k) + 1) == DelimiterCode(k)
  {
  }

  /** One comparison of the scan, with the delimiters before `ch` already tried at `it`. */
  lemma ScanCharStep(buf: bytes, from: nat, it: nat, lim: nat, list: cstring, ch: nat)
    requires it < lim <= |buf| && ch < |list| && forall j :: 0 <= j < ch ==> list[j] != buf[it]
    ensures buf[it] == list[ch] ==>
      ScanChar(buf, from, it, lim, list) == MatchResult(Wrap64(Wrap64(0 - ch) + 1), from, it + 1)
    ensures buf[it] != list[ch] && ch + 1 == |list| ==>
      ScanChar(buf, from, it, lim, list) == ScanChar(buf, from, it + 1, lim, list)
    ensures it + 1 == lim ==> ScanChar(buf, from, lim, lim, list) == MatchResult(0, from, lim)
  {
    CodeWraps(ch);
    hide DelimiterCode;
    hide Wrap64;
    if buf[it] == list[ch] {
      assert IndexOf(buf[it], list) == ch;
    } else if ch + 1 == |list| {
      assert IndexOf(buf[it], list) == |list|;
    }
  }

  method FindChar(buf: bytes, from: nat, lim: nat, list: cstring) returns (r: MatchResult)
    requires lim <= |buf| && list != []
    ensures r == FindCharSpec(buf, from, lim, list)
  {
    hide ScanChar;
    hide DelimiterCode;
    var it, ch := from, 0;
    ScanCharStart(buf, from, lim, list);
    while it < lim
      invariant 0 <= ch < |list|
      invariant FindCharSpec(buf, from, lim, list) == ScanChar(buf, from, it, lim, list)
      invariant it >= lim ==> ScanChar(buf, from, it, lim, list) == MatchResult(0, from, it)
      invariant it < lim ==> forall j :: 0 <= j < ch ==> list[j] != buf[it]
      decreases (lim - it), |list| - ch
    {
      ScanCharStep(buf, from, it, lim, list, ch);
      if buf[it] == list[ch] {
        return MatchResult(Wrap64(Wrap64(0 - ch) + 1), from, it + 1);
      }
      ch := ch + 1;
      if ch == |list| {
        it := it + 1;
        ch := 0;
      }
    }
    return MatchResult(0, from, it);
  }

  /** No octet of buf[p..q] is in the list. */
  predicate NoneIn(buf: bytes, p: nat, q: nat, list: bytes)
    requires q <= |buf|
  {
    forall i :: p <= i < q ==> buf[i] !in list
  }

  /** The scan stops at the leftmost octet of the range that is in the list. */
  lemma {:induction false} ScanCharStops(buf: bytes, from: nat, it: nat, q: nat, lim: nat, list: cstring)
    requires it <= q < lim <= |buf|
    requires NoneIn(buf, it, q, list)
    requires buf[q] in list
    ensures ScanChar(buf, from, it, lim, list) == MatchResult(DelimiterCode(IndexOf(buf[q], list)), from, q + 1)
    decreases q - it
  {
    if it < q {
      assert buf[it] !in list;
      ScanCharStops(buf, from, it + 1, q, lim, list);
    }
  }

  /** The leftmost octet of buf[it..lim] that is in the list; `lim` when there is none. */
  function FirstIn(buf: bytes, it: nat, lim: nat, list: bytes): (q: nat)
    requires it <= lim <= |buf|
    ensures it <= q <= lim && NoneIn(buf, it, q, list)
    ensures q < lim ==> buf[q] in list
    decreases lim - it
  {
    if it == lim || buf[it] in list then it else FirstIn(buf, it + 1, lim, list)
  }

  /** The operator bool of the result is true exactly when the range has a delimiter and the
      leftmost one is not the delimiter at index 1. */
  lemma ScanCharFound(buf: bytes, from: nat, lim: nat, list: cstring)
    requires from <= lim <= |buf| && |list| < TWO64
    ensures var q := FirstIn(buf, from, lim, list);
            FindCharSpec(buf, from, lim, list).result != 0 <==> q < lim && IndexOf(buf[q], list) != 1
  {
    var q := FirstIn(buf, from, lim, list);
    if q < lim {
      ScanCharStops(buf, from, from, q, lim, list);
      assert IndexOf(buf[q], list) < |list|;
    } else {
      ScanCharMisses(buf, from, from, lim, list);
    }
  }

  lemma {:induction false} ScanCharMisses(buf: bytes, from: nat, it: nat, lim: nat, list: cstring)
    requires it <= lim <= |buf| && NoneIn(buf, it, lim, list)
    ensures ScanChar(buf, from, it, lim, list) == MatchResult(0, from, lim)
    decreases lim - it
  {
    if it < lim {
      assert buf[it] !in list;
      ScanCharMisses(buf, from, it + 1, lim, list);
    }
  }
}
