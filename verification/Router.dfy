/** The route table of kernel/main/impl/routerimpl.h: wildcard comparison, first-segment hash,
    and the look-up that relies on both. */
module Router {
  import opened Bytes

  const SLASH: byte := 47
  const STAR: byte := 42

  // ----- compare -----

  /** What `cpathstring::compare` computes. */
  function Compare(l: bytes, r: bytes): bool
    decreases |l| + |r|
  {
    if l == [] || r == [] then true
    else if l[0] == r[0] then Compare(l[1..], r[1..])
    else if l[0] == QUESTION then (if r[0] != SLASH then Compare(l, r[1..]) else Compare(l[1..], r))
    else if r[0] == QUESTION then (if l[0] != SLASH then Compare(l[1..], r) else Compare(l, r[1..]))
    else l[0] == STAR || r[0] == STAR
  }

  method ComparePaths(l: bytes, r: bytes) returns (same: bool)
    ensures same == Compare(l, r)
  {
    var lit, rit := 0, 0;
    while lit < |l| && rit < |r|
      invariant lit <= |l| && rit <= |r| && Compare(l, r) == Compare(l[lit..], r[rit..])
      decreases |l| - lit + |r| - rit
    {
      assert l[lit..][1..] == l[lit + 1..] && r[rit..][1..] == r[rit + 1..];
      if l[lit] != r[rit] {
        if l[lit] == QUESTION {
          if r[rit] != SLASH {
            rit := rit + 1;
            continue;
          }
          lit := lit + 1;
          continue;
        } else if r[rit] == QUESTION {
          if l[lit] != SLASH {
            lit := lit + 1;
            continue;
          }
          rit := rit + 1;
          continue;
        }
        if l[lit] == STAR || r[rit] == STAR {
          return true;
        }
        return false;
      }
      lit := lit + 1;
      rit := rit + 1;
    }
    return true;
  }

  lemma {:induction false} CompareReflexive(p: bytes)
    ensures Compare(p, p)
    decreases |p|
  {
    if p != [] {
      CompareReflexive(p[1..]);
    }
  }

  lemma {:induction false} CompareSymmetric(l: bytes, r: bytes)
    ensures Compare(l, r) == Compare(r, l)
    decreases |l| + |r|
  {
    if l != [] && r != [] {
      CompareSymmetric(l[1..], r[1..]);
      CompareSymmetric(l, r[1..]);
      CompareSymmetric(l[1..], r);
    }
  }

  /** It is not transitive: a pattern compares equal to paths that differ. */
  lemma CompareNotTransitive()
    ensures exists a, b, c :: Compare(a, b) && Compare(b, c) && !Compare(a, c)
  {
    var a: bytes, b: bytes, c: bytes := [SLASH, 97], [SLASH, QUESTION], [SLASH, 98];
    assert a[1..] == [97] && b[1..] == [QUESTION] && c[1..] == [98];
    assert Compare([QUESTION], []) && Compare([97], [QUESTION]) && Compare([QUESTION], [98]);
    assert Compare(a, b) && Compare(b, c) && !Compare(a, c);
  }

  predicate WildcardFree(p: bytes) {
    QUESTION !in p && STAR !in p
  }

  predicate PrefixComparable(a: bytes, b: bytes) {
    a <= b || b <= a
  }

  /** The longest prefix of `u` without a slash. */
  function Run(u: bytes): (r: bytes)
    ensures r <= u && SLASH !in r && (|r| < |u| ==> u[|r|] == SLASH)
  {
    if u == [] || u[0] == SLASH then [] else [u[0]] + Run(u[1..])
  }

  /** The pattern as it applies to the path `u`: cut at its first star, and with each question
      mark replaced by the longest slash-free run of the path at that point. */
  function Expand(p: bytes, u: bytes): bytes
    decreases |p|
  {
    if p == [] || p[0] == STAR then []
    else if p[0] == QUESTION then Run(u) + Expand(p[1..], u[|Run(u)|..])
    else [p[0]] + Expand(p[1..], if u == [] then [] else u[1..])
  }

  /** Standing at a question mark, the comparison first skips the run of the path. */
  lemma {:induction false} CompareSkipsRun(p: bytes, u: bytes)
    requires p != [] && p[0] == QUESTION && WildcardFree(u)
    ensures Compare(p, u) == Compare(p[1..], u[|Run(u)|..])
    decreases |u|
  {
    if u != [] && u[0] != SLASH {
      CompareSkipsRun(p, u[1..]);
      assert u[1..][|Run(u[1..])|..] == u[|Run(u)|..];
    } else {
      assert u[|Run(u)|..] == u;
    }
  }

  lemma PrefixComparableAfter(a: bytes, b: bytes, c: bytes)
    ensures PrefixComparable(a + b, a + c) == PrefixComparable(b, c)
  {
    if a + b <= a + c {
      assert b == (a + b)[|a|..] && c == (a + c)[|a|..];
    }
    if a + c <= a + b {
      assert b == (a + b)[|a|..] && c == (a + c)[|a|..];
    }
  }

  /** Against a path without wildcards, a pattern matches exactly when its expansion and the
      path are prefixes of one another. */
  lemma {:induction false} CompareIsExpansion(p: bytes, u: bytes)
    requires WildcardFree(u)
    ensures Compare(p, u) <==> PrefixComparable(Expand(p, u), u)
    decreases |p|
  {
    if p == [] || u == [] || p[0] == STAR {
    } else if p[0] == QUESTION {
      var run := Run(u);
      CompareSkipsRun(p, u);
      CompareIsExpansion(p[1..], u[|run|..]);
      assert u == run + u[|run|..];
      PrefixComparableAfter(run, Expand(p[1..], u[|run|..]), u[|run|..]);
    } else if p[0] == u[0] {
      CompareIsExpansion(p[1..], u[1..]);
      assert u == [u[0]] + u[1..];
      PrefixComparableAfter([u[0]], Expand(p[1..], u[1..]), u[1..]);
    } else {
      assert Expand(p, u)[0] == p[0];
    }
  }

  // ----- hash -----

  /** `(hash | c) << 8` for a signed `char`: the hash so far is a multiple of 256, so for a
      character below 128 the `|` adds it, and a larger one is sign-extended and sets all the
      bits above it. */
  function Mix(hash: nat, c: byte): nat {
    (if c < 128 then hash + c else TWO64 - 256 + c) * 256 % TWO64
  }

  function HashOf(s: bytes): nat {
    if s == [] then 0 else Mix(HashOf(s[..|s| - 1]), s[|s| - 1])
  }

  /** The path without its leading slash. */
  function Body(p: bytes): bytes {
    if p != [] && p[0] == SLASH then p[1..] else p
  }

  /** The first path segment. */
  function FirstSegment(p: bytes): bytes {
    Run(Body(p))
  }

  /** At most the first `n` characters. */
  function Cut(s: bytes, n: nat): bytes {
    if |s| <= n then s else s[..n]
  }

  const HASHED := 8

  /** What `cpathstring::hash` computes: the segment's first eight characters count. */
  function Hash(p: bytes): nat {
    HashOf(Cut(FirstSegment(p), HASHED))
  }

  lemma {:induction false} RunIs(u: bytes, n: nat)
    requires n <= |u| && SLASH !in u[..n] && (n < |u| ==> u[n] == SLASH)
    ensures Run(u) == u[..n]
    decreases n
  {
    if n > 0 {
      assert u[0] == u[..n][0];
      assert u[1..][..n - 1] == u[..n][1..];
      RunIs(u[1..], n - 1);
      assert u[..n] == [u[0]] + u[1..][..n - 1];
    }
  }

  /** Where the run goes on and where it ends. */
  lemma RunAt(u: bytes, k: nat)
    requires k <= |Run(u)|
    ensures k < |Run(u)| <==> k < |u| && u[k] != SLASH
    ensures k < |Run(u)| ==> Run(u)[k] == u[k]
  {
    if k < |Run(u)| {
      assert Run(u)[k] in Run(u);
    }
  }

  /** The hash of the first `k` characters of the segment that `u` starts with. */
  function HashedSoFar(u: bytes, k: nat): nat
    requires k <= |Run(u)|
  {
    HashOf(Run(u)[..k])
  }

  /** One turn of the hash loop, with `k` characters behind it. */
  lemma HashStep(u: bytes, k: nat)
    requires k <= |Run(u)|
    ensures k < |Run(u)| <==> k < |u| && u[k] != SLASH
    ensures k < |Run(u)| ==> HashedSoFar(u, k + 1) == Mix(HashedSoFar(u, k), u[k])
    ensures HashedSoFar(u, 0) == 0
    ensures k == HASHED || (k == |Run(u)| && k < HASHED) ==> HashedSoFar(u, k) == HashOf(Cut(Run(u), HASHED))
  {
    RunAt(u, k);
    if k < |Run(u)| {
      assert Run(u)[..k + 1][..k] == Run(u)[..k];
    }
    assert Run(u)[..|Run(u)|] == Run(u);
  }

  method HashPath(p: bytes) returns (hash: nat)
    ensures hash == Hash(p)
  {
    var start := if p != [] && p[0] == SLASH then 1 else 0;
    ghost var u := Body(p);
    assert |u| == |p| - start && forall i :: start <= i < |p| ==> p[i] == u[i - start];
    assert Hash(p) == HashOf(Cut(Run(u), HASHED));
    hide *;
    var it, len := start, HASHED;
    ghost var k := 0;
    hash := 0;
    HashStep(u, 0);
    while it < |p| && p[it] != SLASH && len > 0
      invariant it == start + k <= |p| && 0 <= len == HASHED - k && k <= |Run(u)|
      invariant k < |Run(u)| <==> it < |p| && p[it] != SLASH
      invariant hash == HashedSoFar(u, k)
    {
      HashStep(u, k);
      HashStep(u, k + 1);
      len := len - 1;
      hash := Mix(hash, p[it]);
      it, k := it + 1, k + 1;
    }
    HashStep(u, k);
  }

  predicate Ascii(s: bytes) {
    forall i :: 0 <= i < |s| ==> 0 < s[i] < 128
  }

  /** In a text of at most seven ASCII characters every character has its place in the hash:
      equal hashes mean equal texts. */
  lemma {:induction false} HashInjective(a: bytes, b: bytes)
    requires |a| <= 7 && |b| <= 7 && Ascii(a) && Ascii(b) && HashOf(a) == HashOf(b)
    ensures a == b
    decreases |a|
  {
    HashEndsIn(a);
    HashEndsIn(b);
    if a != [] && b != [] {
      HashOfInit(a);
      HashOfInit(b);
      hide HashOf;
      HashInjective(a[..|a| - 1], b[..|b| - 1]);
    }
  }

  /** Taking off the last character of a short ASCII text divides its hash. */
  lemma HashOfInit(s: bytes)
    requires 0 < |s| <= 7 && Ascii(s)
    ensures HashOf(s) == (HashOf(s[..|s| - 1]) + s[|s| - 1]) * 256 && Ascii(s[..|s| - 1])
    ensures s == s[..|s| - 1] + [s[|s| - 1]]
  {
    var n := |s| - 1;
    AsciiInit(s);
    assert HashOf(s) == Mix(HashOf(s[..n]), s[n]);
    hide *;
    ShortHash(s[..n]);
    HashEndsIn(s[..n]);
    MixOfShort(HashOf(s[..n]), s[n]);
  }

  lemma AsciiInit(s: bytes)
    requires s != [] && Ascii(s)
    ensures Ascii(s[..|s| - 1]) && s[|s| - 1] < 128 && s == s[..|s| - 1] + [s[|s| - 1]]
  {
  }

  const BOUNDS: seq<nat> := [
    0x100, 0x1_0000, 0x100_0000, 0x1_0000_0000, 0x100_0000_0000, 0x1_0000_0000_0000, 0x100_0000_0000_0000
  ]

  lemma {:induction false} ShortHash(s: bytes)
    requires |s| <= 6 && Ascii(s)
    ensures HashOf(s) < BOUNDS[|s|] <= 0x100_0000_0000_0000
    decreases |s|
  {
    HashEndsIn(s);
    if s != [] {
      var n := |s| - 1;
      ShortHash(s[..n]);
      HashEndsIn(s[..n]);
      ShortStep(HashOf(s[..n]), s[n], n);
    }
  }

  lemma ShortStep(hash: nat, c: byte, n: nat)
    requires n < 6 && hash < BOUNDS[n] && hash % 256 == 0 && c < 128
    ensures Mix(hash, c) < BOUNDS[n + 1]
  {
    MixOfShort(hash, c);
  }

  lemma MixOfShort(hash: nat, c: byte)
    requires hash < 0x100_0000_0000_0000 && hash % 256 == 0 && c < 128
    ensures Mix(hash, c) == (hash + c) * 256
  {
  }

  /** A character outside ASCII is sign-extended: it wipes out all that was hashed before. */
  lemma NonAsciiForgets(a: bytes, b: bytes, c: byte)
    requires c >= 128
    ensures HashOf(a + [c]) == HashOf(b + [c])
  {
  }

  // ----- where the hash respects the comparison -----

  /** The characters of `s` that count among `n` are literal, and `s` goes on past them. */
  predicate LiteralUpTo(s: bytes, n: nat) {
    (|Run(s)| < |s| || |Run(s)| >= n) && WildcardFree(Cut(Run(s), n))
  }

  /** The hashed characters of the path are literal and complete: no wildcard is among them,
      and the path is not cut off before the segment ends or eight of them are there. */
  predicate Settled(p: bytes) {
    LiteralUpTo(Body(p), 8)
  }

  lemma {:induction false} SegmentsMatch(l: bytes, r: bytes, n: nat)
    requires LiteralUpTo(l, n) && LiteralUpTo(r, n) && Compare(l, r)
    ensures Cut(Run(l), n) == Cut(Run(r), n)
    decreases n
  {
    if n > 0 {
      CutRun(l, n);
      CutRun(r, n);
      if l[0] != SLASH && r[0] != SLASH {
        SegmentsMatch(l[1..], r[1..], n - 1);
      }
    }
  }

  lemma CutRun(s: bytes, n: nat)
    requires LiteralUpTo(s, n) && n > 0
    ensures s != []
    ensures s[0] != SLASH ==>
              && s[0] != QUESTION && s[0] != STAR
              && Cut(Run(s), n) == [s[0]] + Cut(Run(s[1..]), n - 1)
              && LiteralUpTo(s[1..], n - 1)
  {
    if s[0] != SLASH {
      var a, b := Cut(Run(s), n), Cut(Run(s[1..]), n - 1);
      assert a == [s[0]] + b;
      assert a[0] in a && forall c :: c in b ==> c in a;
    }
  }

  lemma CompareTails(l: bytes, r: bytes)
    requires l != [] && r != [] && l[0] == r[0]
    ensures Compare(l, r) == Compare(l[1..], r[1..])
  {
  }

  /** Two settled paths that compare equal have the same hash. */
  lemma CompareImpliesHash(l: bytes, r: bytes)
    requires Settled(l) && Settled(r) && Compare(l, r)
    ensures Hash(l) == Hash(r)
  {
    CutRun(Body(l), HASHED);
    CutRun(Body(r), HASHED);
    assert l[0] == SLASH <==> r[0] == SLASH;
    if l[0] == SLASH {
      CompareTails(l, r);
    }
    hide Compare;
    hide LiteralUpTo;
    SegmentsMatch(Body(l), Body(r), HASHED);
  }

  // ----- and where it does not -----

  lemma {:induction false} CompareAfter(a: bytes, l: bytes, r: bytes)
    ensures Compare(a + l, a + r) == Compare(l, r)
    decreases |a|
  {
    if a == [] {
      assert a + l == l && a + r == r;
    } else {
      assert (a + l)[1..] == a[1..] + l && (a + r)[1..] == a[1..] + r;
      CompareAfter(a[1..], l, r);
    }
  }

  /** Every path compares equal to what it is a prefix of. */
  lemma CompareExtended(p: bytes, more: bytes)
    ensures Compare(p, p + more)
  {
    CompareAfter(p, [], more);
    assert p + [] == p;
  }

  /** The low sixteen bits of the hash hold the last character. */
  lemma HashEndsIn(s: bytes)
    ensures HashOf(s) % 256 == 0 && (s == [] ==> HashOf(s) == 0)
    ensures s != [] ==> HashOf(s) % 0x1_0000 == s[|s| - 1] as int * 256
  {
    if s != [] {
      HashEndsIn(s[..|s| - 1]);
      MixEndsIn(HashOf(s[..|s| - 1]), s[|s| - 1]);
    }
  }

  lemma MixEndsIn(hash: nat, c: byte)
    requires hash % 256 == 0
    ensures Mix(hash, c) % 256 == 0 && Mix(hash, c) % 0x1_0000 == c as int * 256
  {
    var v := (if c < 128 then hash + c else TWO64 - 256 + c) * 256;
    var k := v / TWO64;
    var h := if c < 128 then hash / 256 else 0xFF_FFFF_FFFF_FFFF;
    assert v == 0x1_0000 * h + c * 256;
    assert Mix(hash, c) == 0x1_0000 * (h - 0x1_0000_0000_0000 * k) + c * 256;
  }

  /** Segments that end differently within the hashed characters have different hashes. */
  lemma HashesApart(s: bytes, t: bytes)
    requires t != [] && t[|t| - 1] != 0 && (s != [] ==> s[|s| - 1] != t[|t| - 1])
    ensures HashOf(s) != HashOf(t)
  {
    HashEndsIn(s);
    HashEndsIn(t);
  }

  /** A letter that does not end the text. */
  function OtherLetter(s: bytes): (c: byte)
    ensures c == 97 || c == 98
    ensures s != [] ==> s[|s| - 1] != c
  {
    if s != [] && s[|s| - 1] == 97 then 98 else 97
  }

  /** A path made of a lead, literal characters, and possibly a slash. */
  lemma MadeSettled(lead: bytes, seg: bytes, end: bytes)
    requires lead == [] || lead == [SLASH]
    requires SLASH !in seg && WildcardFree(seg) && seg != []
    requires end == [SLASH] || (end == [] && |seg| >= HASHED)
    ensures var u := lead + seg + end;
            u != [] && Settled(u) && FirstSegment(u) == seg && (u[0] == SLASH <==> lead != [])
  {
    var u := lead + seg + end;
    assert u[|lead|] == seg[0];
    assert Body(u) == seg + end;
    RunIs(seg + end, |seg|);
  }

  lemma LeadAndBody(p: bytes) returns (lead: bytes)
    requires p != []
    ensures (lead == [] || lead == [SLASH]) && (p[0] == SLASH <==> lead != []) && p == lead + Body(p)
  {
    lead := if p[0] == SLASH then [SLASH] else [];
  }

  lemma Regroup(a: bytes, b: bytes, c: bytes)
    ensures a + b + c == a + (b + c)
  {
  }

  lemma LongerText(s: bytes, c: byte)
    requires WildcardFree(s) && SLASH !in s && (c == 97 || c == 98)
    ensures WildcardFree(s + [c]) && SLASH !in s + [c] && s + [c] != []
  {
  }

  /** A path that is cut off: some path goes on with another character. */
  lemma CutOffMisses(p: bytes) returns (q: bytes)
    requires FirstSegment(p) == Body(p) && |Body(p)| < HASHED && WildcardFree(FirstSegment(p))
    ensures q != [] && Settled(q) && WildcardFree(FirstSegment(q)) && (p != [] ==> (q[0] == SLASH <==> p[0] == SLASH))
    ensures Compare(p, q) && Hash(p) != Hash(q)
  {
    hide HashOf;
    hide Settled;
    hide Compare;
    hide Run;
    var seg := FirstSegment(p);
    var lead := [];
    if p != [] {
      lead := LeadAndBody(p);
    }
    assert p == lead + seg;
    hide Body;
    var c := OtherLetter(seg);
    LongerText(seg, c);
    hide WildcardFree;
    var longer := seg + [c];
    q := lead + longer + [SLASH];
    MadeSettled(lead, longer, [SLASH]);
    HashesApart(seg, longer);
    Regroup(lead, longer, [SLASH]);
    Regroup(seg, [c], [SLASH]);
    Regroup(lead, seg, [c] + [SLASH]);
    CompareExtended(p, [c] + [SLASH]);
  }

  lemma PrefixPart(a: bytes, b: bytes, i: nat)
    requires a <= b && i < |a|
    ensures a[..i] == b[..i] && a[i] == b[i] && b[..i] + b[i..] == b
  {
  }

  /** What stands before and from position `i` of the first segment. */
  lemma SplitPath(p: bytes, i: nat) returns (lead: bytes, rest: bytes)
    requires i < |FirstSegment(p)|
    ensures (lead == [] || lead == [SLASH]) && (p[0] == SLASH <==> lead != [])
    ensures p == lead + FirstSegment(p)[..i] + rest && rest != [] && rest[0] == FirstSegment(p)[i]
    ensures SLASH !in FirstSegment(p)
  {
    hide Run;
    var seg, body := FirstSegment(p), Body(p);
    lead := LeadAndBody(p);
    hide FirstSegment;
    hide Body;
    rest := body[i..];
    PrefixPart(seg, body, i);
    Regroup(lead, seg[..i], rest);
  }

  /** Eight times the same character. */
  function Eight(c: byte): (t: bytes)
    ensures |t| == HASHED && forall i :: 0 <= i < HASHED ==> t[i] == c
  {
    [c, c, c, c, c, c, c, c]
  }

  lemma WildcardCovers(before: bytes, rest: bytes, c: byte)
    requires rest != [] && (rest[0] == QUESTION || rest[0] == STAR)
    requires c == 97 || c == 98
    ensures Compare(before + rest, before + Eight(c))
  {
    var fill := Eight(c);
    hide Eight;
    CompareAfter(before, rest, fill);
    assert WildcardFree(fill) && SLASH !in fill;
    RunIs(fill, |fill|);
    if rest[0] == QUESTION {
      CompareSkipsRun(rest, fill);
    }
  }

  lemma FilledText(s: bytes, c: byte)
    requires |s| < HASHED && WildcardFree(s) && SLASH !in s && (c == 97 || c == 98)
    ensures var t := s + Eight(c);
            && t != [] && |t| >= HASHED && SLASH !in t && WildcardFree(t)
            && |Cut(t, HASHED)| == HASHED && Cut(t, HASHED)[HASHED - 1] == c
  {
    hide Eight;
  }

  /** A wildcard at position `i` of the first segment: some path has letters there. */
  lemma WildcardMisses(p: bytes, i: nat) returns (q: bytes)
    requires i < |FirstSegment(p)| && i < HASHED && WildcardFree(FirstSegment(p)[..i])
    requires FirstSegment(p)[i] == QUESTION || FirstSegment(p)[i] == STAR
    ensures q != [] && Settled(q) && WildcardFree(FirstSegment(q)) && (q[0] == SLASH <==> p[0] == SLASH)
    ensures Compare(p, q) && Hash(p) != Hash(q)
  {
    hide HashOf;
    hide Settled;
    hide Compare;
    hide Run;
    hide Body;
    hide Cut;
    hide Eight;
    var seg := FirstSegment(p);
    var lead, rest := SplitPath(p, i);
    hide FirstSegment;
    var before := seg[..i];
    var c := OtherLetter(Cut(seg, HASHED));
    assert SLASH !in before;
    FilledText(before, c);
    WildcardCovers(lead + before, rest, c);
    hide WildcardFree;
    var text := before + Eight(c);
    MadeSettled(lead, text, []);
    q := lead + text + [];
    assert q == lead + before + Eight(c);
    HashesApart(Cut(seg, HASHED), Cut(text, HASHED));
  }

  lemma {:induction false} FirstWildcard(s: bytes) returns (i: nat)
    requires !WildcardFree(s)
    ensures i < |s| && WildcardFree(s[..i]) && (s[i] == QUESTION || s[i] == STAR)
    decreases |s|
  {
    if s[0] == QUESTION || s[0] == STAR {
      i := 0;
    } else {
      assert s == [s[0]] + s[1..];
      var j := FirstWildcard(s[1..]);
      i := j + 1;
      assert s[..i] == [s[0]] + s[1..][..j];
    }
  }

  /** A path that is not settled hashes apart from some settled path it compares equal to. */
  lemma UnsettledMisses(p: bytes) returns (q: bytes)
    requires !Settled(p)
    ensures q != [] && Settled(q) && WildcardFree(FirstSegment(q)) && (p != [] ==> (q[0] == SLASH <==> p[0] == SLASH))
    ensures Compare(p, q) && Hash(p) != Hash(q)
  {
    hide Compare;
    hide Hash;
    var seg := FirstSegment(p);
    if WildcardFree(Cut(seg, HASHED)) {
      q := CutOffMisses(p);
    } else {
      var i := FirstWildcard(Cut(seg, HASHED));
      assert seg[..i] == Cut(seg, HASHED)[..i];
      q := WildcardMisses(p, i);
    }
  }

  /** For every path, route or target: it has the hash of all settled paths that compare equal
      to it exactly when it is settled itself. Targets without any wildcard in their first
      segment suffice to tell. */
  lemma HashRespectsCompareIff(p: bytes)
    ensures (forall q :: Settled(q) && Compare(p, q) ==> Hash(p) == Hash(q)) <==> Settled(p)
    ensures (forall q :: Settled(q) && WildcardFree(FirstSegment(q)) && Compare(p, q) ==> Hash(p) == Hash(q)) <==> Settled(p)
  {
    hide Compare;
    hide Hash;
    hide WildcardFree;
    if Settled(p) {
      forall q | Settled(q) && Compare(p, q) ensures Hash(p) == Hash(q) {
        CompareImpliesHash(p, q);
      }
    } else {
      var q := UnsettledMisses(p);
    }
  }

  /** The hash of a slash, a segment, and possibly a closing slash. */
  lemma SlashedHashes(a: bytes, end: bytes)
    requires SLASH !in a && (end == [] || end == [SLASH])
    ensures Hash([SLASH] + (a + end)) == HashOf(Cut(a, HASHED))
  {
    assert ([SLASH] + (a + end))[1..] == a + end;
    RunIs(a + end, |a|);
  }

  lemma Missed(a: bytes, endA: bytes, b: bytes, endB: bytes)
    requires SLASH !in a && (endA == [] || endA == [SLASH]) && SLASH !in b && (endB == [] || endB == [SLASH])
    requires |a| <= HASHED && 0 < |b| <= HASHED && b[|b| - 1] != 0 && (a != [] ==> a[|a| - 1] != b[|b| - 1])
    requires Compare(a + endA, b + endB)
    ensures Compare([SLASH] + (a + endA), [SLASH] + (b + endB))
    ensures Hash([SLASH] + (a + endA)) != Hash([SLASH] + (b + endB))
  {
    hide HashOf;
    hide Hash;
    SlashedHashes(a, endA);
    SlashedHashes(b, endB);
    HashesApart(a, b);
    CompareAfter([SLASH], a + endA, b + endB);
  }

  /** Concrete inputs: the routes / and the one whose first segment is a star compare equal to
      the target /abc/ but hash differently, so the look-up misses what a scan would find; and
      so do the target /ab and the route /abc/. */
  lemma MissedRoutes()
    ensures var abc: bytes := [SLASH, 97, 98, 99, SLASH];
            && Settled(abc)
            && (var star: bytes := [SLASH, STAR, SLASH]; Compare(star, abc) && Hash(star) != Hash(abc))
            && (var root: bytes := [SLASH]; Compare(root, abc) && Hash(root) != Hash(abc))
            && (var ab: bytes := [SLASH, 97, 98]; Compare(ab, abc) && Hash(ab) != Hash(abc))
  {
    hide HashOf;
    hide Hash;
    hide Settled;
    var abc: bytes, ab: bytes, none: bytes, star: bytes := [97, 98, 99], [97, 98], [], [STAR];
    MadeSettled([SLASH], abc, [SLASH]);
    assert [SLASH] + abc + [SLASH] == [SLASH] + (abc + [SLASH]) == [SLASH, 97, 98, 99, SLASH];
    assert Compare(star + [SLASH], abc + [SLASH]);
    Missed(star, [SLASH], abc, [SLASH]);
    assert [SLASH] + (star + [SLASH]) == [SLASH, STAR, SLASH];
    assert Compare(none + [], abc + [SLASH]);
    Missed(none, [], abc, [SLASH]);
    assert [SLASH] + (none + []) == [SLASH];
    assert abc + [SLASH] == ab + [99, SLASH] && ab + [] == ab;
    CompareExtended(ab, [99, SLASH]);
    Missed(ab, [], abc, [SLASH]);
    assert [SLASH] + (ab + []) == [SLASH, 97, 98];
  }

  // ----- targets with a query -----

  /** The target of a request keeps its query, whose question mark acts as a wildcard. A route
      without wildcards compares equal to the target `p?q` exactly when it is a prefix of `p`,
      or goes on after `p` with a slash-free run and then compares equal to `q`. */
  lemma {:induction false} CompareQuery(route: bytes, p: bytes, q: bytes)
    requires WildcardFree(route) && WildcardFree(p)
    ensures Compare(route, p + [QUESTION] + q) <==>
            route <= p || (p <= route && Compare(route[|p|..][|Run(route[|p|..])|..], q))
    decreases |p|
  {
    var u := p + [QUESTION] + q;
    if p == [] {
      assert u == [QUESTION] + q && u[1..] == q && route[|p|..] == route;
      CompareSymmetric(route, u);
      CompareSkipsRun(u, route);
      CompareSymmetric(q, route[|Run(route)|..]);
    } else if route != [] {
      assert u[1..] == p[1..] + [QUESTION] + q;
      if route[0] == p[0] {
        CompareQuery(route[1..], p[1..], q);
        assert p == [p[0]] + p[1..] && route == [route[0]] + route[1..];
        assert p <= route ==> route[1..][|p| - 1..] == route[|p|..];
      }
    }
  }

  /** A route that ends in a slash, as all configured ones do, against a query that starts
      with a plain character: the route must lie before the question mark as a whole. */
  lemma QueryReaches(route: bytes, p: bytes, q: bytes)
    requires WildcardFree(route) && WildcardFree(p) && route != [] && route[|route| - 1] == SLASH
    requires q != [] && q[0] != SLASH && q[0] != QUESTION && q[0] != STAR
    ensures Compare(route, p + [QUESTION] + q) <==> route <= p
  {
    CompareQuery(route, p, q);
    if p <= route {
      var rest := route[|p|..];
      var tail := rest[|Run(rest)|..];
      assert rest != [] ==> rest[|rest| - 1] == SLASH;
      if tail != [] {
        assert tail[0] == SLASH;
      } else {
        assert Run(rest) == rest;
      }
    }
  }

  lemma {:induction false} RunOfConcat(a: bytes, b: bytes)
    ensures Run(a + b) == if |Run(a)| < |a| then Run(a) else a + Run(b)
    decreases |a|
  {
    if a == [] {
      assert a + b == b;
    } else if a[0] != SLASH {
      assert (a + b)[1..] == a[1..] + b;
      RunOfConcat(a[1..], b);
    }
  }

  /** A path that goes on after a settled one is settled. */
  lemma SettledExtends(p: bytes, more: bytes)
    requires Settled(p)
    ensures Settled(p + more)
  {
    CutRun(Body(p), HASHED);
    assert Body(p + more) == Body(p) + more;
    RunOfConcat(Body(p), more);
    assert Cut(FirstSegment(p + more), HASHED) == Cut(FirstSegment(p), HASHED);
  }

  // ----- the table -----

  type Endpoint = nat

  /** An entry of the multimap, with the hash code that was computed when it was inserted. */
  datatype Entry = Entry(code: nat, path: bytes, endpoint: Endpoint)

  datatype Match = NoRoute | Route(entry: Entry)

  /** The codes stored with the entries are those of their paths. */
  predicate Coded(routes: seq<Entry>) {
    forall e :: e in routes ==> e.code == Hash(e.path)
  }

  predicate AllSettled(routes: seq<Entry>) {
    forall e :: e in routes ==> Settled(e.path)
  }

  /** The entries that hash code and comparison find. */
  function Found(routes: seq<Entry>, uri: bytes): set<Entry> {
    set e | e in routes && e.code == Hash(uri) && Compare(e.path, uri)
  }

  /** The entries that a linear scan finds. */
  function Scanned(routes: seq<Entry>, uri: bytes): set<Entry> {
    set e | e in routes && Compare(e.path, uri)
  }

  lemma LookupIsScan(routes: seq<Entry>, uri: bytes)
    requires Coded(routes) && Settled(uri) && AllSettled(routes)
    ensures Found(routes, uri) == Scanned(routes, uri)
  {
    hide Compare;
    hide Hash;
    hide Settled;
    forall e | e in routes && Compare(e.path, uri) ensures e.code == Hash(uri) {
      CompareImpliesHash(e.path, uri);
    }
  }

  /** The look-up is the scan for every settled target exactly when all routes are settled. */
  lemma LookupIsScanIff(routes: seq<Entry>)
    requires Coded(routes)
    ensures (forall uri :: Settled(uri) ==> Found(routes, uri) == Scanned(routes, uri))
       <==> AllSettled(routes)
  {
    hide Compare;
    hide Hash;
    hide Settled;
    if AllSettled(routes) {
      forall uri | Settled(uri) ensures Found(routes, uri) == Scanned(routes, uri) {
        LookupIsScan(routes, uri);
      }
    } else {
      var e :| e in routes && !Settled(e.path);
      var uri := UnsettledMisses(e.path);
      assert e in Scanned(routes, uri) && e !in Found(routes, uri);
    }
  }

  /** And the look-up of a target is the scan of every table of settled routes exactly when
      the target is settled. */
  lemma TargetIsScannedIff(uri: bytes)
    ensures (forall routes: seq<Entry> :: Coded(routes) && AllSettled(routes) ==> Found(routes, uri) == Scanned(routes, uri))
       <==> Settled(uri)
  {
    hide Compare;
    hide Hash;
    hide Settled;
    if Settled(uri) {
      forall routes: seq<Entry> | Coded(routes) && AllSettled(routes)
        ensures Found(routes, uri) == Scanned(routes, uri)
      {
        LookupIsScan(routes, uri);
      }
    } else {
      var path := UnsettledMisses(uri);
      CompareSymmetric(path, uri);
      var e := Entry(Hash(path), path, 0);
      var routes := [e];
      assert Coded(routes) && e in Scanned(routes, uri) && e !in Found(routes, uri);
    }
  }

  /** What the look-up finds for a target with a query, in a table of settled routes without
      wildcards that end in a slash: the routes that lie before the question mark. */
  lemma QueryLookup(routes: seq<Entry>, p: bytes, q: bytes)
    requires Coded(routes) && WildcardFree(p)
    requires forall e :: e in routes ==> e.path != [] && Settled(e.path) && WildcardFree(e.path) && e.path[|e.path| - 1] == SLASH
    requires q != [] && q[0] != SLASH && q[0] != QUESTION && q[0] != STAR
    ensures Found(routes, p + [QUESTION] + q) == set e | e in routes && e.path <= p
  {
    hide Compare;
    hide Hash;
    hide Settled;
    hide WildcardFree;
    var u := p + [QUESTION] + q;
    forall e | e in routes ensures e in Found(routes, u) <==> e.path <= p {
      QueryReaches(e.path, p, q);
      if e.path <= p {
        var more := u[|e.path|..];
        assert u == e.path + more;
        SettledExtends(e.path, more);
        CompareImpliesHash(e.path, u);
      }
    }
  }

  class RouterTable {
    var routes: seq<Entry>

    predicate Valid()
      reads this
    {
      Coded(routes) && forall e :: e in routes ==> e.path != []
    }

    constructor ()
      ensures Valid() && routes == []
    {
      routes := [];
    }

    /** `ready` is the outcome of creating and initialising the endpoint. */
    method AddRoute(path: bytes, endpoint: Endpoint, ready: bool) returns (added: bool)
      requires Valid()
      modifies this
      ensures Valid() && added == (path != [] && ready)
      ensures routes == if added then old(routes) + [Entry(Hash(path), path, endpoint)] else old(routes)
    {
      if path != [] && ready {
        var code := HashPath(path);
        routes := routes + [Entry(code, path, endpoint)];
        return true;
      }
      return false;
    }

    /** `Routes.find`: some entry with the hash code of the path that compares equal to it.
        Which one is found first depends on the bucket layout and is left open. */
    method Find(uri: bytes) returns (m: Match)
      requires Valid()
      ensures m.Route? ==> m.entry in routes && m.entry.code == Hash(uri) && Compare(m.entry.path, uri)
      ensures m.NoRoute? ==> forall e :: e in routes ==> e.code != Hash(uri) || !Compare(e.path, uri)
    {
      var code := HashPath(uri);
      var rest := set e | e in routes;
      while rest != {}
        invariant forall e :: e in rest ==> e in routes
        invariant forall e :: e in routes ==> e in rest || e.code != code || !Compare(e.path, uri)
        decreases |rest|
      {
        var e :| e in rest;
        if e.code == code {
          var same := ComparePaths(e.path, uri);
          if same {
            return Route(e);
          }
        }
        rest := rest - {e};
      }
      return NoRoute;
    }

    /** The look-up that `Process` makes, for any target and any table: what it finds compares
        equal, and when it finds nothing for a settled target then no settled route does. */
    method Dispatch(uri: bytes) returns (m: Match)
      requires Valid()
      ensures m.Route? ==> m.entry in Scanned(routes, uri)
      ensures m.NoRoute? <==> Found(routes, uri) == {}
      ensures m.NoRoute? && Settled(uri) ==> forall e :: e in Scanned(routes, uri) ==> !Settled(e.path)
    {
      m := Find(uri);
      assert m.Route? ==> m.entry in Found(routes, uri);
      hide Compare;
      hide Hash;
      hide Settled;
      if m.NoRoute? && Settled(uri) {
        forall e | e in Scanned(routes, uri) ensures !Settled(e.path) {
          if Settled(e.path) {
            CompareImpliesHash(e.path, uri);
          }
        }
      }
    }
  }
}
