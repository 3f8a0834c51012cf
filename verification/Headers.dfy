/** The header index of kernel/main/impl/requestimpl.cpp, with the hash and the equality of
    ci/utils/str.h. */
module Headers {
  import opened Bytes
  import opened Options

  // ----- zcstring_iequal -----

  method EqualIgnoringCase(a: bytes, b: bytes) returns (isEqual: bool)
    ensures isEqual == FoldEq(a, b)
  {
    if |a| == |b| {
      if |a| > 0 {
        isEqual := false;
        var n := |a|;
        var i := 0;
        while n > 0
          invariant 0 <= n <= |a| && i == |a| - n
          invariant i > 0 ==> isEqual
          invariant forall k :: 0 <= k < i ==> Fold(a[k]) == Fold(b[k])
        {
          n := n - 1;
          isEqual := Fold(a[i]) == Fold(b[i]);
          if !isEqual {
            return;
          }
          i := i + 1;
        }
        return;
      }
      return true;
    }
    return false;
  }

  /** An equivalence relation, as an unordered map requires. */
  lemma FoldEqIsEquivalence(a: bytes, b: bytes, c: bytes)
    ensures FoldEq(a, a)
    ensures FoldEq(a, b) ==> FoldEq(b, a)
    ensures FoldEq(a, b) && FoldEq(b, c) ==> FoldEq(a, c)
  {
  }

  // ----- zcstring_ifasthash -----

  /** `(hash | c) << 8` of an octet: the hash so far is a multiple of 256. */
  function Mix(hash: nat, c: byte): nat {
    (hash + c) * 256 % TWO64
  }

  function HashOf(s: bytes): nat {
    if s == [] then 0 else Mix(HashOf(s[..|s| - 1]), Fold(s[|s| - 1]))
  }

  /** Only the first eight octets count. */
  function Hash(s: bytes): nat {
    HashOf(if |s| <= 8 then s else s[..8])
  }

  method FastHash(s: bytes) returns (hash: nat)
    ensures hash == Hash(s)
  {
    var n := if 8 > |s| then |s| else 8;
    var it := 0;
    hash := 0;
    while n > 0
      invariant 0 <= n <= 8 && it + n == (if 8 > |s| then |s| else 8)
      invariant hash == HashOf(s[..it])
    {
      n := n - 1;
      assert s[..it + 1][..it] == s[..it];
      hash := Mix(hash, Fold(s[it]));
      it := it + 1;
    }
    assert s[..|s|] == s;
  }

  lemma {:induction false} SameHashOf(a: bytes, b: bytes)
    requires FoldEq(a, b)
    ensures HashOf(a) == HashOf(b)
    decreases |a|
  {
    if a != [] {
      var n := |a| - 1;
      assert forall k :: 0 <= k < n ==> Fold(a[k]) == Fold(b[k]);
      SameHashOf(a[..n], b[..n]);
    }
  }

  /** Names that differ in letter case only have the same hash. */
  lemma EqualNamesHashAlike(a: bytes, b: bytes)
    requires FoldEq(a, b)
    ensures Hash(a) == Hash(b)
  {
    if |a| <= 8 {
      SameHashOf(a, b);
    } else {
      SameHashOf(a[..8], b[..8]);
    }
  }

  // ----- the index -----

  /** The unordered map: the entries with one hash code, in some order. */
  type Index = map<nat, seq<(bytes, bytes)>>

  /** The value of the first entry whose name equals `name` up to case. */
  function FirstMatch(entries: seq<(bytes, bytes)>, name: bytes): Option<bytes> {
    if entries == [] then None
    else if FoldEq(entries[0].0, name) then Some(entries[0].1)
    else FirstMatch(entries[1..], name)
  }

  function Bucket(index: Index, code: nat): seq<(bytes, bytes)> {
    if code in index then index[code] else []
  }

  /** The entries of a header list that `emplace` keeps in one bucket: those with the hash
      code whose name did not occur before. */
  function Kept(headers: seq<(bytes, bytes)>, code: nat): (r: seq<(bytes, bytes)>)
    ensures forall k :: 0 <= k < |r| ==> Hash(r[k].0) == code
  {
    if headers == [] then []
    else
      var n := |headers| - 1;
      var kept := Kept(headers[..n], code);
      var h := headers[n];
      if Hash(h.0) == code && FirstMatch(kept, h.0).None? then kept + [h] else kept
  }

  lemma {:induction false} FirstMatchAppend(entries: seq<(bytes, bytes)>, h: (bytes, bytes), name: bytes)
    ensures FirstMatch(entries + [h], name) ==
            if FirstMatch(entries, name).Some? then FirstMatch(entries, name)
            else if FoldEq(h.0, name) then Some(h.1) else None
    decreases |entries|
  {
    if entries == [] {
      assert (entries + [h])[1..] == [];
    } else {
      assert (entries + [h])[1..] == entries[1..] + [h];
      FirstMatchAppend(entries[1..], h, name);
    }
  }

  /** Names equal up to case are found or missed alike. */
  lemma {:induction false} FirstMatchRespectsCase(entries: seq<(bytes, bytes)>, a: bytes, b: bytes)
    requires FoldEq(a, b)
    ensures FirstMatch(entries, a) == FirstMatch(entries, b)
    decreases |entries|
  {
    if entries != [] {
      FoldEqIsEquivalence(entries[0].0, a, b);
      FoldEqIsEquivalence(a, b, a);
      FoldEqIsEquivalence(entries[0].0, b, a);
      FirstMatchRespectsCase(entries[1..], a, b);
    }
  }

  /** The index refines the list: searching the bucket of a name finds what a scan of all
      headers from the front finds, duplicates included. */
  lemma {:induction false} IndexIsFirstMatch(headers: seq<(bytes, bytes)>, name: bytes)
    ensures FirstMatch(Kept(headers, Hash(name)), name) == FirstMatch(headers, name)
    decreases |headers|
  {
    if headers != [] {
      var n := |headers| - 1;
      var h, kept := headers[n], Kept(headers[..n], Hash(name));
      IndexIsFirstMatch(headers[..n], name);
      assert headers == headers[..n] + [h];
      FirstMatchAppend(headers[..n], h, name);
      FirstMatchAppend(kept, h, name);
      if FoldEq(h.0, name) {
        EqualNamesHashAlike(h.0, name);
        FirstMatchRespectsCase(kept, h.0, name);
      }
    }
  }

  /** The request object; `headers` is the parsed list, `index` its field `Headers`. */
  class RequestImpl {
    const headers: seq<(bytes, bytes)>
    var index: Index

    /** The index is still empty or was built from the header list. */
    ghost predicate Valid()
      reads this
    {
      index == map[] || forall code :: Bucket(index, code) == Kept(headers, code)
    }

    constructor (headers: seq<(bytes, bytes)>)
      ensures Valid() && this.headers == headers && index == map[]
    {
      this.headers := headers;
      index := map[];
    }

    /** The search `find` and `emplace` make in a bucket. */
    method FindIn(entries: seq<(bytes, bytes)>, name: bytes) returns (r: Option<bytes>)
      ensures r == FirstMatch(entries, name)
    {
      var i := 0;
      while i < |entries|
        invariant i <= |entries| && FirstMatch(entries, name) == FirstMatch(entries[i..], name)
      {
        var same := EqualIgnoringCase(entries[i].0, name);
        if same {
          return Some(entries[i].1);
        }
        assert entries[i..][1..] == entries[i + 1..];
        i := i + 1;
      }
      return None;
    }

    method BuildIndex()
      requires index == map[]
      modifies this
      ensures forall code :: Bucket(index, code) == Kept(headers, code)
    {
      assert headers[..0] == [];
      var i := 0;
      while i < |headers|
        invariant i <= |headers| && forall code :: Bucket(index, code) == Kept(headers[..i], code)
      {
        var h := headers[i];
        assert headers[..i + 1][..i] == headers[..i];
        var code := FastHash(h.0);
        var bucket := Bucket(index, code);
        var known := FindIn(bucket, h.0);
        if known.None? {
          index := index[code := bucket + [h]];
        }
        i := i + 1;
      }
      assert headers[..|headers|] == headers;
    }

    /** The value of the first header with the name, whatever its letter case; otherwise the
        default. The index is built on first use and answers every later call. */
    method GetHeaderOption(option: bytes, default: bytes) returns (value: bytes)
      requires Valid()
      modifies this
      ensures Valid()
      ensures value == match FirstMatch(headers, option) case Some(v) => v case None => default
    {
      if index == map[] {
        BuildIndex();
      }
      IndexIsFirstMatch(headers, option);
      var code := FastHash(option);
      var found := FindIn(Bucket(index, code), option);
      match found {
        case Some(v) => return v;
        case None => return default;
      }
    }
  }
}
