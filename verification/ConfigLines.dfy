/** The section machine on any lines whatever: what it collects under each key. */
module ConfigLines {
  import opened Options
  import opened Config

  /** Every section line has a bracket. */
  predicate Bracketed(lines: seq<Line>) {
    forall i :: 0 <= i < |lines| && lines[i].Section? ==> lines[i].level > 0
  }

  // ----- comments and blank lines -----

  /** The lines that are a section or a property. */
  function Essential(lines: seq<Line>): (r: seq<Line>)
    ensures forall i :: 0 <= i < |r| ==> !r[i].Other?
  {
    if lines == [] then []
    else (if lines[0].Other? then [] else [lines[0]]) + Essential(lines[1..])
  }

  /** All other lines make no difference, wherever they stand. */
  lemma {:induction false} RunEssential(m: Machine, lines: seq<Line>)
    ensures RunLines(m, lines) == RunLines(m, Essential(lines))
    decreases |lines|
  {
    if lines != [] {
      var rest := lines[1..];
      match StepLine(m, lines[0]) {
        case None =>
        case Some(n) => RunEssential(n, rest);
      }
      if lines[0].Other? {
        assert Essential(lines) == Essential(rest);
      } else {
        assert Essential(lines)[0] == lines[0] && Essential(lines)[1..] == Essential(rest);
      }
    }
  }

  // ----- where the lines belong -----

  /** The path above a section of some level: a jump to a deeper level goes one level deeper
      only, and any shallower level is cut off. */
  function Above(path: Path, level: nat): Path
    requires level > 0
  {
    path[..if level - 1 < |path| then level - 1 else |path|]
  }

  lemma ParentIsAbove(path: Path, level: nat)
    requires level > 0
    ensures Parent(path, level) == Above(path, level)
  {
  }

  function PathAfter(path: Path, line: Line): Path
    requires line.Section? ==> line.level > 0
  {
    if line.Section? then Above(path, line.level) + [line.name] else path
  }

  /** The names of the sections right below the key, in the order of their lines, also when a
      name comes again. */
  function ChildrenAt(path: Path, lines: seq<Line>, key: string): seq<string>
    requires Bracketed(lines)
    decreases |lines|
  {
    if lines == [] then []
    else
      (if lines[0].Section? && Join(Above(path, lines[0].level)) == key then [lines[0].name] else [])
      + ChildrenAt(PathAfter(path, lines[0]), lines[1..], key)
  }

  /** The properties given under the key, in the order of their lines. */
  function PropsAt(path: Path, lines: seq<Line>, key: string): seq<(string, string)>
    requires Bracketed(lines)
    decreases |lines|
  {
    if lines == [] then []
    else
      (if lines[0].Property? && Join(path) == key then [(lines[0].key, lines[0].value)] else [])
      + PropsAt(PathAfter(path, lines[0]), lines[1..], key)
  }

  /** The keys that one line opens: those of a section and of what it hangs in. */
  function OpenedBy(path: Path, line: Line): set<string>
    requires line.Section? ==> line.level > 0
  {
    if line.Section? then {Implode(Above(path, line.level), line.name), Join(Above(path, line.level))} else {}
  }

  function Opened(path: Path, lines: seq<Line>): set<string>
    requires Bracketed(lines)
    decreases |lines|
  {
    if lines == [] then {} else OpenedBy(path, lines[0]) + Opened(PathAfter(path, lines[0]), lines[1..])
  }

  /** Every property line comes when the key of its section is open. */
  predicate Placed(path: Path, open: set<string>, lines: seq<Line>)
    requires Bracketed(lines)
    decreases |lines|
  {
    lines == []
    || ((lines[0].Property? ==> Join(path) in open)
        && Placed(PathAfter(path, lines[0]), open + OpenedBy(path, lines[0]), lines[1..]))
  }

  function EntryAt(table: Table, key: string): Entry {
    if key in table then table[key] else NO_ENTRY
  }

  /** One line: which keys there are afterwards, and what each of them has. */
  lemma StepCollects(m: Machine, line: Line, key: string)
    requires line.Section? ==> line.level > 0
    ensures StepLine(m, line).Some? <==> (line.Property? ==> Join(m.path) in m.table)
    ensures StepLine(m, line).Some? ==>
              var (n, e) := (StepLine(m, line).value, EntryAt(m.table, key));
              var f := EntryAt(n.table, key);
              && n.path == PathAfter(m.path, line)
              && n.table.Keys == m.table.Keys + OpenedBy(m.path, line)
              && f.children == e.children + ChildrenAt(m.path, [line], key)
              && f.props == PropMap(PropsAt(m.path, [line], key)) + e.props
  {
    hide Join;
    if line.Section? {
      ParentIsAbove(m.path, line.level);
      hide Parent;
      hide Implode;
      hide Above;
    }
    assert [line][1..] == [];
  }

  lemma {:induction false} RunsWhenPlaced(m: Machine, lines: seq<Line>)
    requires Bracketed(lines)
    ensures RunLines(m, lines).Some? <==> Placed(m.path, m.table.Keys, lines)
    ensures RunLines(m, lines).Some? ==> RunLines(m, lines).value.table.Keys == m.table.Keys + Opened(m.path, lines)
    decreases |lines|
  {
    if lines != [] {
      StepCollects(m, lines[0], "");
      hide StepLine;
      match StepLine(m, lines[0]) {
        case None =>
        case Some(n) => RunsWhenPlaced(n, lines[1..]);
      }
    }
  }

  lemma BracketedCons(line: Line, rest: seq<Line>)
    requires Bracketed([line] + rest)
    ensures Bracketed([line]) && Bracketed(rest) && (line.Section? ==> line.level > 0)
  {
    assert ([line] + rest)[0] == line;
    forall i | 0 <= i < |rest| && rest[i].Section? ensures rest[i].level > 0 {
      assert ([line] + rest)[i + 1] == rest[i];
    }
  }

  lemma CollectedCons(path: Path, line: Line, rest: seq<Line>, key: string)
    requires Bracketed([line] + rest) && Bracketed([line]) && Bracketed(rest) && (line.Section? ==> line.level > 0)
    ensures ChildrenAt(path, [line] + rest, key) == ChildrenAt(path, [line], key) + ChildrenAt(PathAfter(path, line), rest, key)
    ensures PropsAt(path, [line] + rest, key) == PropsAt(path, [line], key) + PropsAt(PathAfter(path, line), rest, key)
  {
    assert ([line] + rest)[1..] == rest && ([line] + rest)[0] == line && [line][1..] == [];
    hide Join;
    hide Above;
  }

  lemma {:induction false} PropMapConcat(a: seq<(string, string)>, b: seq<(string, string)>)
    ensures PropMap(a + b) == PropMap(b) + PropMap(a)
    decreases |a|
  {
    if a == [] {
      assert a + b == b;
    } else {
      assert (a + b)[1..] == a[1..] + b;
      PropMapConcat(a[1..], b);
    }
  }

  /** What an entry has after `a` and then `b` were collected into it. */
  lemma Composed(e: Entry, f: Entry, g: Entry, a: seq<string>, b: seq<string>, pa: seq<(string, string)>, pb: seq<(string, string)>)
    requires f.children == e.children + a && f.props == PropMap(pa) + e.props
    requires g.children == f.children + b && g.props == PropMap(pb) + f.props
    ensures g.children == e.children + (a + b) && g.props == PropMap(pa + pb) + e.props
  {
    PropMapConcat(pa, pb);
    hide PropMap;
    assert PropMap(pb) + (PropMap(pa) + e.props) == PropMap(pb) + PropMap(pa) + e.props;
  }

  lemma NothingCollected(m: Machine, key: string)
    ensures RunLines(m, []) == Some(m)
    ensures ChildrenAt(m.path, [], key) == [] && PropMap(PropsAt(m.path, [], key)) == map[]
    ensures forall e: Entry :: e.children + [] == e.children && map[] + e.props == e.props
  {
  }

  /** The whole result, for any lines, with sections that come again, levels that jump, and
      properties given twice: it exists exactly when every property comes in an open section;
      the keys are the opened ones; a key has the names of the section lines right below it,
      in order, after what it had; and the first value given to a property stays. */
  lemma {:induction false} RunCollects(m: Machine, lines: seq<Line>, key: string)
    requires Bracketed(lines)
    ensures RunLines(m, lines).Some? <==> Placed(m.path, m.table.Keys, lines)
    ensures RunLines(m, lines).Some? ==>
              var (table, e) := (RunLines(m, lines).value.table, EntryAt(m.table, key));
              && table.Keys == m.table.Keys + Opened(m.path, lines)
              && EntryAt(table, key).children == e.children + ChildrenAt(m.path, lines, key)
              && EntryAt(table, key).props == PropMap(PropsAt(m.path, lines, key)) + e.props
    decreases |lines|
  {
    RunsWhenPlaced(m, lines);
    if lines == [] {
      NothingCollected(m, key);
    } else if RunLines(m, lines).Some? {
      var line, rest := lines[0], lines[1..];
      var n := StepLine(m, line).value;
      assert RunLines(m, lines) == RunLines(n, rest);
      hide RunLines;
      hide Placed;
      hide Opened;
      assert lines == [line] + rest;
      BracketedCons(line, rest);
      hide Bracketed;
      StepCollects(m, line, key);
      hide StepLine;
      hide ChildrenAt;
      hide PropsAt;
      hide PropMap;
      hide PathAfter;
      hide EntryAt;
      RunCollects(n, rest, key);
      CollectedCons(m.path, line, rest, key);
      Composed(EntryAt(m.table, key), EntryAt(n.table, key), EntryAt(RunLines(n, rest).value.table, key),
               ChildrenAt(m.path, [line], key), ChildrenAt(n.path, rest, key),
               PropsAt(m.path, [line], key), PropsAt(n.path, rest, key));
    }
  }
}
