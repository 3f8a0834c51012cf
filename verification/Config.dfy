/** The section machine of kernel/main/config.cpp: bracketed section lines, whose depth is the
    number of brackets, are flattened into a table keyed by dotted paths. */
module Config {
  import opened Options

  type Path = seq<string>

  /** A table entry: the sub-section names in order, and the properties. */
  datatype Entry = Entry(children: seq<string>, props: map<string, string>)

  type Table = map<string, Entry>

  /** A classified line of the file; `Section` has at least one bracket. */
  datatype Line = Section(level: nat, name: string) | Property(key: string, value: string) | Other

  // ----- implode_config_path -----

  /** The names joined with dots. */
  function Join(path: Path): string {
    if path == [] then []
    else
      var n := |path| - 1;
      if n == 0 then path[0] else Join(path[..n]) + ("." + path[n])
  }

  /** `implode_config_path(path, valname)`. */
  function Implode(path: Path, valname: string): string {
    if path == [] then valname
    else if valname == [] then Join(path)
    else Join(path) + ("." + valname)
  }

  method ImplodeConfigPath(path: Path, valname: string) returns (result: string)
    ensures result == Implode(path, valname)
  {
    result := [];
    if path != [] {
      var it := 0;
      var n := |path| - 1;
      while n > 0
        invariant 0 <= n && it + n == |path| - 1
        invariant result == if it == 0 then [] else Join(path[..it]) + "."
      {
        result := result + path[it] + ".";
        assert path[..it + 1][..it] == path[..it];
        n := n - 1;
        it := it + 1;
      }
      result := result + path[it];
      assert path[..it + 1] == path;
      if valname != [] {
        result := result + "." + valname;
      }
    } else if valname != [] {
      result := valname;
    }
  }

  // ----- the section machine -----

  datatype Machine = Machine(path: Path, table: Table)

  const START := Machine([], map[])

  const NO_ENTRY := Entry([], map[])

  /** `emplace` keeps an existing entry. */
  function Emplace(table: Table, key: string): Table {
    if key in table then table else table[key := NO_ENTRY]
  }

  function AppendChild(table: Table, key: string, name: string): Table
    requires key in table
  {
    table[key := table[key].(children := table[key].children + [name])]
  }

  /** Where a section of some level hangs: what is left of the path after popping. */
  function Parent(path: Path, level: nat): Path {
    if level <= |path| then path[..if level == 0 then 0 else level - 1] else path
  }

  function SectionLine(m: Machine, level: nat, name: string): Machine {
    var parent := Parent(m.path, level);
    var table := Emplace(Emplace(m.table, Implode(parent, name)), Join(parent));
    Machine(parent + [name], AppendChild(table, Join(parent), name))
  }

  /** A property goes to the section the path denotes; the first value of a key wins. The
      source dereferences the end iterator when there is no such section: None. */
  function PropertyLine(m: Machine, key: string, value: string): Option<Machine> {
    var section := Join(m.path);
    if section !in m.table then None
    else if key in m.table[section].props then Some(m)
    else
      var e := m.table[section];
      Some(m.(table := m.table[section := e.(props := e.props[key := value])]))
  }

  function StepLine(m: Machine, line: Line): Option<Machine> {
    match line
    case Section(level, name) => Some(SectionLine(m, level, name))
    case Property(key, value) => PropertyLine(m, key, value)
    case Other => Some(m)
  }

  function RunLines(m: Machine, lines: seq<Line>): Option<Machine>
    decreases |lines|
  {
    if lines == [] then Some(m)
    else
      match StepLine(m, lines[0])
      case None => None
      case Some(n) => RunLines(n, lines[1..])
  }

  class Kernel {
    var config: Table

    /** Reads the classified lines into `config`. */
    method InitConfig(lines: seq<Line>) returns (ok: bool)
      requires forall k :: 0 <= k < |lines| && lines[k].Section? ==> lines[k].level > 0
      modifies this
      ensures ok <==> RunLines(Machine([], old(config)), lines).Some?
      ensures ok ==> config == RunLines(Machine([], old(config)), lines).value.table
    {
      var path: Path := [];
      var k := 0;
      ghost var start := Machine([], config);
      while k < |lines|
        invariant k <= |lines|
        invariant RunLines(start, lines) == RunLines(Machine(path, config), lines[k..])
      {
        assert lines[k..][0] == lines[k] && lines[k..][1..] == lines[k + 1..];
        match lines[k] {
          case Section(clvl, node) =>
            path := ReadSection(path, clvl, node);
          case Property(key, value) =>
            var section := ImplodeConfigPath(path, []);
            if section !in config {
              return false;
            }
            if key !in config[section].props {
              config := config[section := config[section].(props := config[section].props[key := value])];
            }
          case Other =>
        }
        k := k + 1;
      }
      return true;
    }

    /** The three branches of a section line: same level, shallower, deeper. */
    method ReadSection(path: Path, clvl: nat, node: string) returns (newPath: Path)
      requires clvl > 0
      modifies this
      ensures Machine(newPath, config) == SectionLine(Machine(path, old(config)), clvl, node)
    {
      var stack := path;
      if clvl == |stack| {
        stack := stack[..|stack| - 1];
      } else if clvl < |stack| {
        stack := stack[..|stack| - 1];
        while |stack| >= clvl
          invariant |stack| >= clvl - 1 && stack == path[..|stack|]
        {
          stack := stack[..|stack| - 1];
        }
      }
      assert stack == Parent(path, clvl);
      var own := ImplodeConfigPath(stack, node);
      if own !in config {
        config := config[own := NO_ENTRY];
      }
      var parent := ImplodeConfigPath(stack, []);
      if parent !in config {
        config := config[parent := NO_ENTRY];
      }
      config := config[parent := config[parent].(children := config[parent].children + [node])];
      newPath := stack + [node];
    }
  }

  // ----- trees -----

  /** A section with its properties and sub-sections. */
  datatype Tree = Tree(name: string, props: seq<(string, string)>, children: seq<Tree>)

  function Names(ts: seq<Tree>): (r: seq<string>)
    ensures |r| == |ts| && forall i :: 0 <= i < |ts| ==> r[i] == ts[i].name
  {
    if ts == [] then [] else [ts[0].name] + Names(ts[1..])
  }

  predicate GoodName(s: string) {
    s != [] && '.' !in s
  }

  predicate GoodPath(p: Path) {
    forall i :: 0 <= i < |p| ==> GoodName(p[i])
  }

  /** Names are non-empty, free of dots, and different among siblings. */
  predicate WellNamed(ts: seq<Tree>) {
    && (forall i :: 0 <= i < |ts| ==> GoodName(ts[i].name) && WellNamed(ts[i].children))
    && (forall i, j :: 0 <= i < j < |ts| ==> ts[i].name != ts[j].name)
  }

  function PropLines(props: seq<(string, string)>): seq<Line> {
    if props == [] then [] else [Property(props[0].0, props[0].1)] + PropLines(props[1..])
  }

  /** The file of a forest: each section line, its properties, then its sub-sections. */
  function Listing(ts: seq<Tree>, level: nat): seq<Line> {
    if ts == [] then []
    else
      var t := ts[0];
      [Section(level, t.name)] + (PropLines(t.props) + (Listing(t.children, level + 1) + Listing(ts[1..], level)))
  }

  /** The properties as a map; the first value of a key wins. */
  function PropMap(props: seq<(string, string)>): map<string, string> {
    if props == [] then map[] else PropMap(props[1..])[props[0].0 := props[0].1]
  }

  function EntryOf(t: Tree): Entry {
    Entry(Names(t.children), PropMap(t.props))
  }

  /** The section a path of names leads to. */
  function Follow(ts: seq<Tree>, path: Path): Option<Tree>
    requires path != []
    decreases |path|, |ts|
  {
    if ts == [] then None
    else if ts[0].name != path[0] then Follow(ts[1..], path)
    else if |path| == 1 then Some(ts[0])
    else Follow(ts[0].children, path[1..])
  }
}
