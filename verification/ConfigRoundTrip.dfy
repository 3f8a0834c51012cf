/** Reading the file of a section tree gives exactly the flattened tree. */
module ConfigRoundTrip {
  import opened Options
  import opened Config
  import opened ConfigLines

  // ----- dotted paths -----

  lemma JoinAppend(p: Path, x: string)
    ensures Join(p + [x]) == if p == [] then x else Join(p) + ("." + x)
    ensures x != [] ==> Implode(p, x) == Join(p + [x])
  {
    assert (p + [x])[..|p|] == p;
  }

  /** A text ends in one dot-free name only. */
  lemma LastNameUnique(a: string, x: string, b: string, y: string)
    requires '.' !in x && '.' !in y && a + ("." + x) == b + ("." + y)
    ensures a == b && x == y
  {
    var s := a + ("." + x);
    assert s[|a|] == '.' && s[|b|] == '.';
    assert forall i :: |a| < i < |s| ==> s[i] == x[i - |a| - 1];
    assert forall i :: |b| < i < |s| ==> s[i] == y[i - |b| - 1];
    assert |a| == |b|;
    assert a == s[..|a|] && b == s[..|b|];
    assert x == s[|a| + 1..] && y == s[|b| + 1..];
  }

  lemma {:induction false} JoinNonEmpty(p: Path)
    requires GoodPath(p) && p != []
    ensures Join(p) != []
  {
    if |p| == 1 {
      assert GoodName(p[0]);
    }
  }

  lemma JoinDots(p: Path)
    requires GoodPath(p) && p != []
    ensures '.' in Join(p) <==> |p| > 1
  {
    var n := |p| - 1;
    if n > 0 {
      assert Join(p) == Join(p[..n]) + ("." + p[n]);
      hide Join;
      DotBetween(Join(p[..n]), p[n]);
    } else {
      assert GoodName(p[0]) && Join(p) == p[0];
    }
  }

  lemma DotBetween(a: string, b: string)
    ensures '.' in a + ("." + b)
  {
    assert (a + ("." + b))[|a|] == '.';
  }

  /** Different paths of good names have different dotted forms. */
  lemma {:induction false} JoinInjective(p: Path, q: Path)
    requires GoodPath(p) && GoodPath(q) && Join(p) == Join(q)
    ensures p == q
    decreases |p|
  {
    if p == [] || q == [] {
      if p != [] { JoinNonEmpty(p); }
      if q != [] { JoinNonEmpty(q); }
    } else {
      JoinDots(p);
      JoinDots(q);
      var n, m := |p| - 1, |q| - 1;
      assert GoodName(p[n]) && GoodName(q[m]);
      assert p == p[..n] + [p[n]] && q == q[..m] + [q[m]];
      if n > 0 {
        LastNameUnique(Join(p[..n]), p[n], Join(q[..m]), q[m]);
        JoinInjective(p[..n], q[..m]);
      }
    }
  }

  lemma AppendInjective(prefix: Path, q: Path, r: Path)
    requires prefix + q == prefix + r
    ensures q == r
  {
    assert q == (prefix + q)[|prefix|..] && r == (prefix + r)[|prefix|..];
  }

  // ----- the flattened tree -----

  /** The table entries of a forest that hangs below `prefix`. */
  function Flat(prefix: Path, ts: seq<Tree>): Table
    decreases ts
  {
    if ts == [] then map[]
    else
      var t := ts[0];
      map[Join(prefix + [t.name]) := EntryOf(t)] + Flat(prefix + [t.name], t.children) + Flat(prefix, ts[1..])
  }

  lemma WellNamedTail(ts: seq<Tree>)
    requires ts != [] && WellNamed(ts)
    ensures GoodName(ts[0].name) && WellNamed(ts[0].children) && WellNamed(ts[1..])
    ensures forall i :: 0 <= i < |ts[1..]| ==> ts[1..][i].name != ts[0].name
  {
    forall i | 0 <= i < |ts[1..]| ensures GoodName(ts[1..][i].name) && WellNamed(ts[1..][i].children) && ts[1..][i].name != ts[0].name {
      assert ts[1..][i] == ts[i + 1];
    }
    forall i, j | 0 <= i < j < |ts[1..]| ensures ts[1..][i].name != ts[1..][j].name {
      assert ts[1..][i] == ts[i + 1] && ts[1..][j] == ts[j + 1];
    }
  }

  /** `q` starts with the name of one of the trees. */
  predicate StartsIn(ts: seq<Tree>, q: Path) {
    q != [] && exists i :: 0 <= i < |ts| && ts[i].name == q[0]
  }

  /** Every key below `prefix` is the dotted form of a longer path through one of the trees. */
  lemma {:induction false} FlatKeys(prefix: Path, ts: seq<Tree>, key: string) returns (q: Path)
    requires GoodPath(prefix) && WellNamed(ts) && key in Flat(prefix, ts)
    ensures GoodPath(prefix + q) && StartsIn(ts, q) && key == Join(prefix + q)
    decreases ts
  {
    hide Join;
    var t := ts[0];
    var below := prefix + [t.name];
    WellNamedTail(ts);
    var inRest, inBelow := key in Flat(prefix, ts[1..]), key in Flat(below, t.children);
    assert inRest || inBelow || key == Join(below);
    hide Flat;
    hide EntryOf;
    hide GoodName;
    hide WellNamed;
    if inRest {
      q := FlatKeys(prefix, ts[1..], key);
      var i :| 0 <= i < |ts[1..]| && ts[1..][i].name == q[0];
      assert ts[i + 1].name == q[0];
    } else if inBelow {
      var r := FlatKeys(below, t.children, key);
      q := [t.name] + r;
      assert below + r == prefix + q;
      assert ts[0].name == q[0];
    } else {
      q := [t.name];
      assert ts[0].name == q[0];
    }
  }

  /** A path whose next name is not among the trees leads to no key of theirs. */
  lemma NotInFlat(prefix: Path, ts: seq<Tree>, q: Path)
    requires GoodPath(prefix) && GoodPath(prefix + q) && WellNamed(ts) && !StartsIn(ts, q)
    ensures Join(prefix + q) !in Flat(prefix, ts)
  {
    if Join(prefix + q) in Flat(prefix, ts) {
      var r := FlatKeys(prefix, ts, Join(prefix + q));
      JoinInjective(prefix + q, prefix + r);
      AppendInjective(prefix, q, r);
    }
  }

  /** The flattened tree has an entry for a path exactly when the path leads to a section, and
      it is that section's entry. */
  lemma {:induction false} FlatIsFollow(prefix: Path, ts: seq<Tree>, q: Path)
    requires GoodPath(prefix) && GoodPath(q) && q != [] && WellNamed(ts)
    ensures Join(prefix + q) in Flat(prefix, ts) <==> Follow(ts, q).Some?
    ensures Follow(ts, q).Some? ==> Flat(prefix, ts)[Join(prefix + q)] == EntryOf(Follow(ts, q).value)
    decreases |q|, |ts|
  {
    if ts != [] {
      var t := ts[0];
      var below := prefix + [t.name];
      WellNamedTail(ts);
      FlatIsFollow(prefix, ts[1..], q);
      assert prefix + q == below <==> q == [t.name];
      hide Join;
      hide WellNamed;
      if t.name != q[0] {
        NotBelow(prefix, t, q);
      } else {
        FollowAbsent(ts[1..], q);
        if |q| == 1 {
          assert prefix + q == below;
          ParentNotInFlat(below, t.children);
        } else {
          assert prefix + q == below + q[1..];
          FlatIsFollow(below, t.children, q[1..]);
          if Join(prefix + q) == Join(below) {
            JoinInjective(prefix + q, below);
          }
        }
      }
    }
  }

  /** Nothing of a tree's own entries belongs to a path that starts elsewhere. */
  lemma NotBelow(prefix: Path, t: Tree, q: Path)
    requires GoodPath(prefix) && GoodPath(prefix + q) && q != [] && GoodName(t.name) && WellNamed(t.children) && t.name != q[0]
    ensures Join(prefix + q) != Join(prefix + [t.name])
    ensures Join(prefix + q) !in Flat(prefix + [t.name], t.children)
  {
    var below := prefix + [t.name];
    assert (prefix + q)[|prefix|] == q[0] && below[|prefix|] == t.name;
    if Join(prefix + q) == Join(below) {
      JoinInjective(prefix + q, below);
    }
    if Join(prefix + q) in Flat(below, t.children) {
      var r := FlatKeys(below, t.children, Join(prefix + q));
      assert (below + r)[|prefix|] == t.name;
      JoinInjective(prefix + q, below + r);
    }
  }

  lemma {:induction false} FollowAbsent(ts: seq<Tree>, q: Path)
    requires q != [] && forall i :: 0 <= i < |ts| ==> ts[i].name != q[0]
    ensures Follow(ts, q).None?
    decreases |ts|
  {
    if ts != [] {
      FollowAbsent(ts[1..], q);
    }
  }

  // ----- running the listing -----

  lemma {:induction false} RunConcat(m: Machine, a: seq<Line>, b: seq<Line>)
    ensures RunLines(m, a + b) == match RunLines(m, a) case None => None case Some(n) => RunLines(n, b)
    decreases |a|
  {
    if a == [] {
      assert a + b == b;
    } else {
      assert (a + b)[1..] == a[1..] + b;
      match StepLine(m, a[0])
      case None =>
      case Some(n) => RunConcat(n, a[1..], b);
    }
  }

  /** Property lines fill the entry of the current section; values already there win. */
  lemma {:induction false} RunProps(m: Machine, props: seq<(string, string)>)
    requires Join(m.path) in m.table
    ensures var e := m.table[Join(m.path)];
            RunLines(m, PropLines(props))
            == Some(m.(table := m.table[Join(m.path) := e.(props := PropMap(props) + e.props)]))
    decreases |props|
  {
    hide Join;
    var section := Join(m.path);
    var e := m.table[section];
    if props == [] {
      assert PropMap(props) + e.props == e.props;
      assert m.table[section := e] == m.table;
    } else {
      var (k, v) := props[0];
      var n := StepLine(m, Property(k, v)).value;
      RunProps(n, props[1..]);
      assert PropLines(props)[1..] == PropLines(props[1..]);
      assert PropMap(props[1..]) + n.table[section].props == PropMap(props) + e.props;
      assert n.table[section := e.(props := PropMap(props) + e.props)] == m.table[section := e.(props := PropMap(props) + e.props)];
    }
  }

  /** The table with the forest below `prefix` added: its entries, and its names as further
      children of the entry of `prefix`. */
  function Grown(table: Table, prefix: Path, ts: seq<Tree>): Table {
    if ts == [] then table
    else
      var e := if Join(prefix) in table then table[Join(prefix)] else NO_ENTRY;
      table[Join(prefix) := e.(children := e.children + Names(ts))] + Flat(prefix, ts)
  }

  /** The machine is at or below `prefix`, whose entry exists, and no key of the forest is
      taken yet. */
  ghost predicate Ready(m: Machine, prefix: Path, ts: seq<Tree>) {
    && GoodPath(prefix) && WellNamed(ts)
    && prefix <= m.path
    && (prefix != [] ==> Join(prefix) in m.table)
    && (forall key :: key in Flat(prefix, ts) ==> key !in m.table)
  }

  /** The section line of the first tree. */
  lemma RunSection(m: Machine, prefix: Path, ts: seq<Tree>)
    requires ts != [] && Ready(m, prefix, ts)
    ensures var own := Join(prefix + [ts[0].name]);
            var e := if Join(prefix) in m.table then m.table[Join(prefix)] else NO_ENTRY;
            && own != Join(prefix) && own !in m.table
            && SectionLine(m, |prefix| + 1, ts[0].name)
               == Machine(prefix + [ts[0].name], m.table[own := NO_ENTRY][Join(prefix) := e.(children := e.children + [ts[0].name])])
  {
    var t := ts[0];
    WellNamedTail(ts);
    var own := Join(prefix + [t.name]);
    assert own in Flat(prefix, ts);
    JoinAppend(prefix, t.name);
    assert Parent(m.path, |prefix| + 1) == prefix;
    assert prefix + [t.name] != prefix;
    hide Flat;
    hide WellNamed;
    hide Join;
    hide Parent;
    hide Implode;
    hide Ready;
    if own == Join(prefix) {
      JoinInjective(prefix + [t.name], prefix);
    }
  }

  /** A section whose properties are in place, after its sub-sections were added. */
  lemma GrownFilled(table: Table, below: Path, t: Tree)
    requires Join(below) !in Flat(below, t.children)
    ensures Grown(table[Join(below) := Entry([], PropMap(t.props))], below, t.children)
            == table[Join(below) := EntryOf(t)] + Flat(below, t.children)
  {
    hide Join;
    hide PropMap;
    var own := Join(below);
    var filled := table[own := Entry([], PropMap(t.props))];
    if t.children == [] {
      PlusNothing(filled);
    } else {
      hide Flat;
      assert [] + Names(t.children) == Names(t.children);
      MapTwice(table, own, Entry([], PropMap(t.props)), EntryOf(t));
    }
  }

  lemma PlusNothing<K, V>(m: map<K, V>)
    ensures m + map[] == m
  {
  }

  lemma MapTwice<K, V>(table: map<K, V>, key: K, v: V, w: V)
    ensures table[key := v][key := w] == table[key := w]
  {
  }

  /** What the lines of the first tree leave, before its siblings follow. */
  lemma TreeLeaves(table: Table, prefix: Path, ts: seq<Tree>)
    requires ts != [] && GoodPath(prefix) && WellNamed(ts)
    ensures var t := ts[0];
            var below := prefix + [t.name];
            var filled := table[Join(below) := Entry([], PropMap(t.props))];
            Grown(filled, below, t.children) == table + (map[Join(below) := EntryOf(t)] + Flat(below, t.children))
  {
    var t := ts[0];
    var below := prefix + [t.name];
    WellNamedTail(ts);
    ParentNotInFlat(below, t.children);
    hide Flat;
    hide Grown;
    hide Join;
    hide EntryOf;
    hide PropMap;
    GrownFilled(table, below, t);
    MapRegroup(table, Join(below), EntryOf(t), Flat(below, t.children));
  }

  lemma Associative<T>(a: seq<T>, b: seq<T>, c: seq<T>)
    ensures a + b + c == a + (b + c)
  {
  }

  lemma MapRegroup<K, V>(table: map<K, V>, key: K, w: V, more: map<K, V>)
    ensures table[key := w] + more == table + (map[key := w] + more)
  {
  }

  lemma MapOverwrite<K, V>(table: map<K, V>, key: K, v: V, w: V, tree: map<K, V>, more: map<K, V>)
    requires key !in tree
    ensures (table[key := v] + tree)[key := w] + more == table[key := w] + (tree + more)
    ensures (table[key := v] + tree)[key] == v
  {
  }

  /** The parent's entry is no entry of the forest below it. */
  lemma ParentNotInFlat(prefix: Path, ts: seq<Tree>)
    requires GoodPath(prefix) && WellNamed(ts)
    ensures Join(prefix) !in Flat(prefix, ts)
  {
    NotInFlat(prefix, ts, []);
    assert prefix + [] == prefix;
  }

  /** Entries of different siblings do not collide. */
  lemma SiblingsApart(prefix: Path, ts: seq<Tree>, key: string)
    requires ts != [] && GoodPath(prefix) && WellNamed(ts) && key in Flat(prefix, ts[1..])
    ensures key != Join(prefix + [ts[0].name]) && key !in Flat(prefix + [ts[0].name], ts[0].children)
  {
    WellNamedTail(ts);
    var q := FlatKeys(prefix, ts[1..], key);
    NotBelow(prefix, ts[0], q);
  }

  /** Adding the first tree and then its siblings is adding the forest. */
  lemma GrownInTwo(table: Table, prefix: Path, ts: seq<Tree>)
    requires ts != [] && GoodPath(prefix) && WellNamed(ts)
    ensures var first := WithTree(table, prefix, ts[0]);
            Join(prefix) in first && Grown(first, prefix, ts[1..]) == Grown(table, prefix, ts)
  {
    hide EntryOf;
    hide Join;
    var t := ts[0];
    var below := prefix + [t.name];
    var e := if Join(prefix) in table then table[Join(prefix)] else NO_ENTRY;
    var tree := map[Join(below) := EntryOf(t)] + Flat(below, t.children);
    var first := table[Join(prefix) := e.(children := e.children + [t.name])] + tree;
    WellNamedTail(ts);
    ParentNotInFlat(prefix, ts);
    var rest := Flat(prefix, ts[1..]);
    assert Flat(prefix, ts) == tree + rest && Join(prefix) !in tree;
    assert Names(ts) == [t.name] + Names(ts[1..]);
    assert ts[1..] == [] ==> rest == map[] && Names(ts[1..]) == [];
    var e1 := e.(children := e.children + [t.name]);
    var e2 := e.(children := e.children + Names(ts));
    Associative(e.children, [t.name], Names(ts[1..]));
    hide Flat;
    hide Names;
    hide Join;
    hide WellNamed;
    MapOverwrite(table, Join(prefix), e1, e2, tree, rest);
    assert Grown(table, prefix, ts) == table[Join(prefix) := e2] + (tree + rest);
    if ts[1..] == [] {
      assert e1 == e2 && tree + rest == tree;
    } else {
      assert e1.(children := e1.children + Names(ts[1..])) == e2;
      assert Grown(first, prefix, ts[1..]) == first[Join(prefix) := e2] + rest;
    }
  }

  /** The section line and the property lines of the first tree. */
  lemma RunTreeHead(m: Machine, prefix: Path, ts: seq<Tree>, m1: Machine) returns (m2: Machine)
    requires ts != [] && Ready(m, prefix, ts) && m1 == SectionLine(m, |prefix| + 1, ts[0].name)
    ensures m2 == Machine(prefix + [ts[0].name], Filled(m.table, prefix, ts[0]))
    ensures RunLines(m1, PropLines(ts[0].props)) == Some(m2)
  {
    var t := ts[0];
    var own := Join(prefix + [t.name]);
    var e := if Join(prefix) in m.table then m.table[Join(prefix)] else NO_ENTRY;
    RunSection(m, prefix, ts);
    hide SectionLine;
    hide Ready;
    hide Join;
    hide RunLines;
    hide PropMap;
    var e1 := e.(children := e.children + [t.name]);
    MapInsert(m.table, own, Join(prefix), NO_ENTRY, e1, Entry([], PropMap(t.props)));
    RunProps(m1, t.props);
    assert PropMap(t.props) + map[] == PropMap(t.props);
    m2 := Machine(prefix + [t.name], Filled(m.table, prefix, t));
  }

  lemma MapInsert<K, V>(table: map<K, V>, own: K, parent: K, v: V, p: V, w: V)
    requires own != parent
    ensures own in table[own := v][parent := p] && table[own := v][parent := p][own] == v
    ensures table[own := v][parent := p][own := w] == table[parent := p][own := w]
  {
  }

  lemma RunNothing(m: Machine, prefix: Path)
    ensures RunLines(m, Listing([], |prefix| + 1)) == Some(m) && Grown(m.table, prefix, []) == m.table
    ensures forall ts :: Ready(m, prefix, ts) ==> prefix <= m.path
  {
  }

  /** Running the listing of a forest adds exactly the forest, and leaves the machine at or
      below the place where it hangs. */
  lemma {:induction false} RunListing(m: Machine, prefix: Path, ts: seq<Tree>) returns (n: Machine)
    requires Ready(m, prefix, ts)
    ensures RunLines(m, Listing(ts, |prefix| + 1)) == Some(n)
    ensures prefix <= n.path && n.table == Grown(m.table, prefix, ts)
    decreases ts
  {
    hide SectionLine;
    hide Ready;
    hide RunLines;
    hide Listing;
    hide Grown;
    hide Filled;
    n := m;
    if ts == [] {
      RunNothing(m, prefix);
    } else {
      var t := ts[0];
      var m1 := SectionLine(m, |prefix| + 1, t.name);
      var m2 := RunTreeHead(m, prefix, ts, m1);
      BelowReady(m, prefix, ts, m2);
      var m3 := RunListing(m2, prefix + [t.name], t.children);
      RestReady(m, prefix, ts, m2, m3);
      n := RunListing(m3, prefix, ts[1..]);
      ComposeListing(m, prefix, ts, m1, m2, m3);
    }
  }

  /** The table after the section line and the property lines of the first tree. */
  function Filled(table: Table, prefix: Path, t: Tree): Table {
    var e := if Join(prefix) in table then table[Join(prefix)] else NO_ENTRY;
    table[Join(prefix) := e.(children := e.children + [t.name])][Join(prefix + [t.name]) := Entry([], PropMap(t.props))]
  }

  lemma BelowReady(m: Machine, prefix: Path, ts: seq<Tree>, m2: Machine)
    requires ts != [] && Ready(m, prefix, ts)
    requires m2 == Machine(prefix + [ts[0].name], Filled(m.table, prefix, ts[0]))
    ensures Ready(m2, prefix + [ts[0].name], ts[0].children)
  {
    var t := ts[0];
    var below := prefix + [t.name];
    WellNamedTail(ts);
    ParentNotInFlat(below, t.children);
    ParentNotInFlat(prefix, ts);
    forall key | key in Flat(below, t.children) ensures key !in m2.table {
      assert key in Flat(prefix, ts);
    }
  }

  /** The table after the first tree, once its name is among the children of the parent. */
  function WithTree(table: Table, prefix: Path, t: Tree): Table {
    var e := if Join(prefix) in table then table[Join(prefix)] else NO_ENTRY;
    var below := prefix + [t.name];
    table[Join(prefix) := e.(children := e.children + [t.name])] + (map[Join(below) := EntryOf(t)] + Flat(below, t.children))
  }

  lemma TreeAdded(table: Table, prefix: Path, ts: seq<Tree>)
    requires ts != [] && GoodPath(prefix) && WellNamed(ts)
    ensures Grown(Filled(table, prefix, ts[0]), prefix + [ts[0].name], ts[0].children) == WithTree(table, prefix, ts[0])
  {
    var e := if Join(prefix) in table then table[Join(prefix)] else NO_ENTRY;
    hide Join;
    hide Flat;
    hide Grown;
    hide EntryOf;
    TreeLeaves(table[Join(prefix) := e.(children := e.children + [ts[0].name])], prefix, ts);
  }

  /** The keys of the siblings are still free after the first tree. */
  lemma SiblingsFree(table: Table, prefix: Path, ts: seq<Tree>, key: string)
    requires ts != [] && GoodPath(prefix) && WellNamed(ts)
    requires key in Flat(prefix, ts[1..]) && key !in table
    ensures key !in WithTree(table, prefix, ts[0])
  {
    SiblingsApart(prefix, ts, key);
    ParentNotInFlat(prefix, ts);
    assert key in Flat(prefix, ts);
    hide Join;
    hide Flat;
    hide EntryOf;
  }

  lemma RestReady(m: Machine, prefix: Path, ts: seq<Tree>, m2: Machine, m3: Machine)
    requires ts != [] && Ready(m, prefix, ts)
    requires m2.table == Filled(m.table, prefix, ts[0])
    requires prefix + [ts[0].name] <= m3.path && m3.table == Grown(m2.table, prefix + [ts[0].name], ts[0].children)
    ensures Ready(m3, prefix, ts[1..]) && Grown(m3.table, prefix, ts[1..]) == Grown(m.table, prefix, ts)
  {
    hide EntryOf;
    hide Join;
    hide Grown;
    hide Filled;
    WellNamedTail(ts);
    assert forall key :: key in Flat(prefix, ts[1..]) ==> key in Flat(prefix, ts);
    hide Flat;
    hide WellNamed;
    TreeAdded(m.table, prefix, ts);
    GrownInTwo(m.table, prefix, ts);
    assert m3.table == WithTree(m.table, prefix, ts[0]);
    forall key | key in Flat(prefix, ts[1..]) ensures key !in m3.table {
      SiblingsFree(m.table, prefix, ts, key);
    }
  }

  lemma ComposeListing(m: Machine, prefix: Path, ts: seq<Tree>, m1: Machine, m2: Machine, m3: Machine)
    requires ts != [] && m1 == SectionLine(m, |prefix| + 1, ts[0].name)
    requires RunLines(m1, PropLines(ts[0].props)) == Some(m2)
    requires RunLines(m2, Listing(ts[0].children, |prefix + [ts[0].name]| + 1)) == Some(m3)
    ensures RunLines(m, Listing(ts, |prefix| + 1)) == RunLines(m3, Listing(ts[1..], |prefix| + 1))
  {
    var t, level := ts[0], |prefix| + 1;
    var children, rest := Listing(t.children, level + 1), Listing(ts[1..], level);
    var lines := Listing(ts, level);
    assert lines[0] == Section(level, t.name) && lines[1..] == PropLines(t.props) + (children + rest);
    RunConcat(m1, PropLines(t.props), children + rest);
    RunConcat(m2, children, rest);
  }

  /** The round trip. The file of a forest, with any other lines between, is read with success.
      For every path of good names the table has an entry exactly when the path leads to a
      section, and then it is that section's: its sub-sections in order and its properties.
      The empty key lists the top sections, and there is no other key. */
  lemma ReadBack(lines: seq<Line>, ts: seq<Tree>)
    requires WellNamed(ts) && Essential(lines) == Listing(ts, 1)
    ensures RunLines(START, lines).Some?
    ensures var table := RunLines(START, lines).value.table;
            && (forall q :: GoodPath(q) && q != [] ==> (Join(q) in table <==> Follow(ts, q).Some?))
            && (forall q :: GoodPath(q) && q != [] && Follow(ts, q).Some? ==> table[Join(q)] == EntryOf(Follow(ts, q).value))
            && ("" in table <==> ts != [])
            && (ts != [] ==> table[""] == Entry(Names(ts), map[]))
            && (forall key :: key in table ==> key == "" || exists q :: GoodPath(q) && q != [] && key == Join(q))
  {
    RunEssential(START, lines);
    hide *;
    ReadListing(ts);
  }

  lemma ReadListing(ts: seq<Tree>)
    requires WellNamed(ts)
    ensures RunLines(START, Listing(ts, 1)).Some?
    ensures var table := RunLines(START, Listing(ts, 1)).value.table;
            && (forall q :: GoodPath(q) && q != [] ==> (Join(q) in table <==> Follow(ts, q).Some?))
            && (forall q :: GoodPath(q) && q != [] && Follow(ts, q).Some? ==> table[Join(q)] == EntryOf(Follow(ts, q).value))
            && ("" in table <==> ts != [])
            && (ts != [] ==> table[""] == Entry(Names(ts), map[]))
            && (forall key :: key in table ==> key == "" || exists q :: GoodPath(q) && q != [] && key == Join(q))
  {
    hide RunLines;
    hide Listing;
    hide Grown;
    hide Flat;
    hide Join;
    hide Follow;
    hide WellNamed;
    hide Names;
    hide EntryOf;
    hide Ready;
    ReadyAtStart(ts);
    var n := RunListing(START, [], ts);
    StartTable(ts);
    forall q | GoodPath(q) && q != []
      ensures Join(q) in n.table <==> Follow(ts, q).Some?
      ensures Follow(ts, q).Some? ==> n.table[Join(q)] == EntryOf(Follow(ts, q).value)
    {
      assert [] + q == q;
      FlatIsFollow([], ts, q);
      JoinNonEmpty(q);
    }
    forall key | key in n.table && key != "" ensures exists q :: GoodPath(q) && q != [] && key == Join(q) {
      PathOfKey(ts, key);
    }
  }

  lemma ReadyAtStart(ts: seq<Tree>)
    requires WellNamed(ts)
    ensures Ready(START, [], ts)
  {
    hide WellNamed;
    hide Flat;
  }

  lemma PathOfKey(ts: seq<Tree>, key: string)
    requires WellNamed(ts) && key in Flat([], ts)
    ensures exists q :: GoodPath(q) && q != [] && key == Join(q)
  {
    hide Join;
    var q := FlatKeys([], ts, key);
    assert [] + q == q;
  }

  /** The whole table, starting from nothing. */
  lemma StartTable(ts: seq<Tree>)
    requires WellNamed(ts)
    ensures var table := Grown(map[], [], ts);
            && (forall key :: key != "" ==> (key in table <==> key in Flat([], ts)))
            && (forall key :: key != "" && key in table ==> table[key] == Flat([], ts)[key])
            && ("" in table <==> ts != [])
            && (ts != [] ==> table[""] == Entry(Names(ts), map[]))
  {
    ParentNotInFlat([], ts);
    assert Join([]) == "" && [] + Names(ts) == Names(ts);
    assert ts == [] ==> Flat([], ts) == map[];
    hide Names;
    hide Join;
    hide WellNamed;
    hide Flat;
  }
}
