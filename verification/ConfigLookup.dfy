/** Navigating the configuration table, kernel/main/impl/cfgimpl.h, and reading back what was
    written in the file. */
module ConfigLookup {
  import opened Options
  import opened Config
  import opened ConfigLines
  import opened ConfigRoundTrip

  /** `string(s).rfind('.')`: the position of the last dot, |s| when there is none. */
  function LastDot(s: string): (p: nat)
    ensures p <= |s|
    ensures p < |s| ==> s[p] == '.' && forall i :: p < i < |s| ==> s[i] != '.'
    ensures p == |s| ==> '.' !in s
  {
    if s == [] then 0
    else
      var n := |s| - 1;
      if s[n] == '.' then n
      else
        var p := LastDot(s[..n]);
        assert p == n ==> forall i :: 0 <= i < |s| ==> s[i] != '.' by {
          assert forall i :: 0 <= i < n ==> s[i] == s[..n][i];
        }
        assert p < n ==> s[p] == s[..n][p] && forall i :: p < i < n ==> s[i] == s[..n][i];
        if p == n then |s| else p
  }

  /** The table key and the property name that `GetConfigValue` derives. */
  function Target(space: string, propname: string): (string, string) {
    var p := LastDot(propname);
    if p < |propname| then
      ((if space == [] then [] else space + ".") + propname[..p], propname[p + 1..])
    else (space, propname)
  }

  function ValueAt(table: Table, section: string, key: string, default: string): string {
    if section in table && key in table[section].props then table[section].props[key] else default
  }

  /** A view of the table; `space` is the dotted path it stands at. */
  datatype ConfigImpl = ConfigImpl(table: Table, space: string)
  {
    function GetSections(): seq<string> {
      if space in table then table[space].children else []
    }

    /** operator[] */
    function At(ns: string): ConfigImpl {
      ConfigImpl(table, if space == [] then ns else space + "." + ns)
    }

    function Value(propname: string, default: string): string {
      var (section, key) := Target(space, propname);
      ValueAt(table, section, key, default)
    }

    method GetConfigValue(propname: string, propdefault: string) returns (result: string)
      ensures result == Value(propname, propdefault)
    {
      var vpart := LastDot(propname);
      var path, value := space, [];
      if vpart != |propname| {
        if path != [] {
          path := path + ".";
        }
        path := path + propname[..vpart];
        value := value + propname[vpart + 1..];
        assert value == propname[vpart + 1..];
      } else {
        value := propname;
      }
      if path in table {
        if value in table[path].props {
          return table[path].props[value];
        }
      }
      return propdefault;
    }
  }

  /** Navigation by operator[] along a path of names. */
  function Navigate(c: ConfigImpl, path: Path): ConfigImpl {
    if path == [] then c else Navigate(c, path[..|path| - 1]).At(path[|path| - 1])
  }

  /** Navigating from the root stands at the dotted form of the path. */
  lemma {:induction false} NavigateIsJoin(table: Table, path: Path)
    requires GoodPath(path)
    ensures Navigate(ConfigImpl(table, ""), path) == ConfigImpl(table, Join(path))
    decreases |path|
  {
    if path != [] {
      var n := |path| - 1;
      NavigateIsJoin(table, path[..n]);
      if n > 0 {
        JoinNonEmpty(path[..n]);
        DotsRegroup(Join(path[..n]), path[n], "");
      }
    }
  }

  lemma {:induction false} JoinConcat(a: Path, b: Path)
    ensures Join(a + b) == if a == [] then Join(b) else if b == [] then Join(a) else Join(a) + ("." + Join(b))
    decreases |b|
  {
    if b == [] || a == [] {
      assert a + b == if b == [] then a else b;
    } else {
      var n := |b| - 1;
      assert b == b[..n] + [b[n]] && a + b == (a + b[..n]) + [b[n]];
      JoinAppend(b[..n], b[n]);
      JoinAppend(a + b[..n], b[n]);
      JoinConcat(a, b[..n]);
      hide Join;
      DotsRegroup(Join(a), Join(b[..n]), b[n]);
      if n == 0 {
        assert a + b[..n] == a;
      }
    }
  }

  lemma DotsRegroup(a: string, b: string, x: string)
    ensures (a + ("." + b)) + ("." + x) == a + ("." + (b + ("." + x)))
    ensures a + "." + b == a + ("." + b)
  {
  }

  lemma LastDotIs(b: string, key: string)
    requires '.' !in key
    ensures var s := b + "." + key;
            LastDot(s) == |b| && s[..|b|] == b && s[|b| + 1..] == key
  {
    hide LastDot;
    var s := b + "." + key;
    assert s[|b|] == '.';
    assert forall i :: |b| < i < |s| ==> s[i] == key[i - |b| - 1];
  }

  /** A dotted property name asked for at a section is the plain name asked for at the
      sub-section that the dots lead to. */
  lemma TargetOfDotted(a: Path, b: Path, key: string)
    requires GoodPath(a) && GoodPath(b) && '.' !in key
    ensures Target(Join(a), if b == [] then key else Join(b) + "." + key) == (Join(a + b), key)
  {
    hide LastDot;
    JoinConcat(a, b);
    if b != [] {
      LastDotIs(Join(b), key);
      DotsRegroup(Join(a), Join(b), key);
      if a != [] {
        JoinNonEmpty(a);
      } else {
        assert [] + Join(b) == Join(b);
      }
    }
    hide Join;
  }

  /** The first value a property list gives to a key. */
  function FirstValue(props: seq<(string, string)>, key: string, default: string): string {
    if props == [] then default
    else if props[0].0 == key then props[0].1
    else FirstValue(props[1..], key, default)
  }

  lemma {:induction false} PropMapIsFirst(props: seq<(string, string)>, key: string, default: string)
    ensures (if key in PropMap(props) then PropMap(props)[key] else default) == FirstValue(props, key, default)
    decreases |props|
  {
    if props != [] {
      PropMapIsFirst(props[1..], key, default);
    }
  }

  /** End to end: read the file of a section tree, with any other lines between, navigate to a section along names, ask for a
      property, by its plain name or with further section names before it. The answer is the
      first value the section gives to the property, or the default when the section or the
      property does not exist. */
  lemma ReadValue(lines: seq<Line>, ts: seq<Tree>, a: Path, b: Path, key: string, default: string)
    requires WellNamed(ts) && Essential(lines) == Listing(ts, 1) && GoodPath(a) && GoodPath(b) && a + b != [] && '.' !in key
    ensures RunLines(START, lines).Some?
    ensures var config := ConfigImpl(RunLines(START, lines).value.table, "");
            Navigate(config, a).Value(if b == [] then key else Join(b) + "." + key, default)
            == match Follow(ts, a + b)
               case Some(t) => FirstValue(t.props, key, default)
               case None => default
  {
    hide RunLines;
    hide Listing;
    hide Essential;
    hide WellNamed;
    ReadBack(lines, ts);
    var table := RunLines(START, lines).value.table;
    NavigateIsJoin(table, a);
    TargetOfDotted(a, b, key);
    assert GoodPath(a + b);
    hide Target;
    hide Join;
    hide Follow;
    hide Navigate;
    var f := Follow(ts, a + b);
    if f.Some? {
      assert table[Join(a + b)] == EntryOf(f.value);
      PropMapIsFirst(f.value.props, key, default);
    } else {
      assert Join(a + b) !in table;
    }
  }

  /** The sub-sections of a section come back in the order of the file. */
  lemma ReadSections(lines: seq<Line>, ts: seq<Tree>, path: Path)
    requires WellNamed(ts) && Essential(lines) == Listing(ts, 1) && GoodPath(path)
    ensures RunLines(START, lines).Some?
    ensures var config := ConfigImpl(RunLines(START, lines).value.table, "");
            Navigate(config, path).GetSections()
            == if path == [] then Names(ts)
               else match Follow(ts, path)
                    case Some(t) => Names(t.children)
                    case None => []
  {
    hide RunLines;
    hide Listing;
    hide Essential;
    hide WellNamed;
    ReadBack(lines, ts);
    var table := RunLines(START, lines).value.table;
    NavigateIsJoin(table, path);
    if path == [] {
      assert Join(path) == "";
    } else {
      hide Join;
      hide Follow;
      assert Join(path) in table <==> Follow(ts, path).Some?;
    }
  }
}
