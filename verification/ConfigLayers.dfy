/** Loading a configuration file together with everything it extends. */
module ConfigLayers {
  import opened ConfigMerge

  type Path = string

  datatype Option<+T> = None | Some(value: T)
  datatype Format = Toml | Yaml | Json
  datatype Metadata = Missing | Directory | File

  datatype Error =
    | ReadConfigFile(path: Path)
    | ParseConfigFile(path: Path)
    | CircularExtends(canonical: Path)
    | InvalidExtendsEntry(path: Path)
    | ExtendsTargetNotFound(entry: string)
    | UnsupportedConfigExtension(path: Path)

  datatype Result<+T> = Ok(value: T) | Err(error: Error)

  /** What the loader can ask of the file system and of the parsers. */
  datatype Disk = Disk(
    canonicalize: Path -> Option<Path>,
    contents: Path -> Option<string>,
    parse: (Format, string) -> Option<Value>,
    locate: (Path, string) -> Path,        // an `extends` entry of a file, as a path
    metadata: Path -> Metadata,
    child: (Path, string) -> Path,
    formatOf: Path -> Option<Format>,
    files: set<Path>)                      // all canonical files

  ghost predicate Valid(disk: Disk) {
    forall p :: disk.canonicalize(p).Some? ==> disk.canonicalize(p).value in disk.files
  }

  // ---------------------------------------------------------------- the `extends` directive

  function Strings(items: seq<Value>): seq<string>
    requires forall i :: 0 <= i < |items| ==> items[i].String?
  {
    seq(|items|, i requires 0 <= i < |items| => items[i].s)
  }

  /** The entries of the directive and the layer without it. */
  function Extract(value: Value, path: Path): Result<(seq<string>, Value)> {
    if !value.Object? || "extends" !in value.fields then Ok(([], value))
    else
      var raw, own := value.fields["extends"], Object(value.fields - {"extends"});
      if raw.String? then Ok(([raw.s], own))
      else if raw.Array? && forall i :: 0 <= i < |raw.items| ==> raw.items[i].String?
      then Ok((Strings(raw.items), own))
      else Err(InvalidExtendsEntry(path))
  }

  predicate IsStrings(raw: Value) {
    raw.Array? && forall i :: 0 <= i < |raw.items| ==> raw.items[i].String?
  }

  /** The value with all its keys but the directive. */
  predicate WithoutDirective(value: Value, own: Value) {
    if value.Object? then
      && own.Object? && own.fields.Keys == value.fields.Keys - {"extends"}
      && forall k :: k in own.fields ==> own.fields[k] == value.fields[k]
    else own == value
  }

  predicate Directs(value: Value, entries: seq<string>) {
    if !value.Object? || "extends" !in value.fields then entries == []
    else
      var raw := value.fields["extends"];
      if raw.String? then entries == [raw.s]
      else
        && raw.Array? && |entries| == |raw.items|
        && forall i :: 0 <= i < |entries| ==> raw.items[i] == String(entries[i])
  }

  /** What taking out the directive gives: an error exactly when it is there and neither a string nor an
      array of strings; else its strings in order, and everything else as it was.
   */
  predicate Extracted(value: Value, path: Path, r: Result<(seq<string>, Value)>) {
    match r
    case Err(error) =>
      && error == InvalidExtendsEntry(path) && value.Object? && "extends" in value.fields
      && !value.fields["extends"].String? && !IsStrings(value.fields["extends"])
    case Ok((entries, own)) => Directs(value, entries) && WithoutDirective(value, own)
  }

  lemma ExtractIs(value: Value, path: Path)
    ensures Extracted(value, path, Extract(value, path))
  {
  }

  method ExtractExtends(value: Value, path: Path) returns (r: Result<(seq<string>, Value)>)
    ensures r == Extract(value, path) && Extracted(value, path, r)
  {
    ExtractIs(value, path);
    if !value.Object? {
      return Ok(([], value));
    }
    if "extends" !in value.fields {
      return Ok(([], value));
    }
    var raw, own := value.fields["extends"], Object(value.fields - {"extends"});
    match raw
    case String(s) => r := Ok(([s], own));
    case Array(items) =>
      var out: seq<string> := [];
      for i := 0 to |items|
        invariant |out| == i
        invariant forall j :: 0 <= j < i ==> items[j].String? && out[j] == items[j].s
      {
        if !items[i].String? {
          return Err(InvalidExtendsEntry(path));
        }
        out := out + [items[i].s];
      }
      assert out == Strings(items);
      r := Ok((out, own));
    case _ => r := Err(InvalidExtendsEntry(path));
  }

  const CANDIDATES: seq<(string, Format)> :=
    [("mago.toml", Toml), ("mago.yaml", Yaml), ("mago.yml", Yaml), ("mago.json", Json)]

  /** The first configuration file present in a directory. */
  function FirstCandidate(disk: Disk, dir: Path, candidates: seq<(string, Format)>): Option<(Path, Format)> {
    if candidates == [] then None
    else
      var candidate := disk.child(dir, candidates[0].0);
      if disk.metadata(candidate) != Missing then Some((candidate, candidates[0].1))
      else FirstCandidate(disk, dir, candidates[1..])
  }

  /** `resolve_extends_entry`; `None` for a directory without a configuration file. */
  function Resolve(disk: Disk, path: Path, entry: string): Result<Option<(Path, Format)>> {
    var resolved := disk.locate(path, entry);
    match disk.metadata(resolved)
    case Missing => Err(ExtendsTargetNotFound(entry))
    case Directory => Ok(FirstCandidate(disk, resolved, CANDIDATES))
    case File =>
      match disk.formatOf(resolved)
      case None => Err(UnsupportedConfigExtension(resolved))
      case Some(format) => Ok(Some((resolved, format)))
  }

  /** Reading, parsing and taking the directive out of one file. */
  function OwnLayer(disk: Disk, path: Path, format: Format): Result<(seq<string>, Value)> {
    match disk.contents(path)
    case None => Err(ReadConfigFile(path))
    case Some(text) =>
      match disk.parse(format, text)
      case None => Err(ParseConfigFile(path))
      case Some(value) => Extract(value, path)
  }

  /** A directory leads to the first of the four candidates that is there. */
  lemma DirectoryLeadsTo(disk: Disk, path: Path, entry: string)
    requires disk.metadata(disk.locate(path, entry)) == Directory
    ensures var dir := disk.locate(path, entry);
            var there := (name: string) => disk.metadata(disk.child(dir, name)) != Missing;
            Resolve(disk, path, entry) == Ok(
              if there("mago.toml") then Some((disk.child(dir, "mago.toml"), Toml))
              else if there("mago.yaml") then Some((disk.child(dir, "mago.yaml"), Yaml))
              else if there("mago.yml") then Some((disk.child(dir, "mago.yml"), Yaml))
              else if there("mago.json") then Some((disk.child(dir, "mago.json"), Json))
              else None)
  {
    var dir := disk.locate(path, entry);
    var last: seq<(string, Format)> := [("mago.json", Json)];
    var two := [("mago.yml", Yaml)] + last;
    var three := [("mago.yaml", Yaml)] + two;
    assert last[1..] == [] && two[1..] == last && three[1..] == two && CANDIDATES[1..] == three;
    assert FirstCandidate(disk, dir, []) == None;
    assert FirstCandidate(disk, dir, last) ==
           if disk.metadata(disk.child(dir, "mago.json")) != Missing then Some((disk.child(dir, "mago.json"), Json)) else None;
    assert FirstCandidate(disk, dir, two) ==
           if disk.metadata(disk.child(dir, "mago.yml")) != Missing then Some((disk.child(dir, "mago.yml"), Yaml))
           else FirstCandidate(disk, dir, last);
    assert FirstCandidate(disk, dir, three) ==
           if disk.metadata(disk.child(dir, "mago.yaml")) != Missing then Some((disk.child(dir, "mago.yaml"), Yaml))
           else FirstCandidate(disk, dir, two);
  }

  // ---------------------------------------------------------------- loading

  /** The outcome, the files visited so far, and the files opened, in order. */
  datatype Loaded = Loaded(result: Result<Value>, visited: set<Path>, log: seq<Path>)

  /** `load_layer`. */
  function Load(disk: Disk, path: Path, format: Format, visited: set<Path>, log: seq<Path>): (r: Loaded)
    requires Valid(disk)
    ensures visited <= r.visited
    decreases |disk.files - visited|, 0, 0
  {
    match disk.canonicalize(path)
    case None => Loaded(Err(ReadConfigFile(path)), visited, log)
    case Some(canonical) =>
      if canonical in visited then Loaded(Err(CircularExtends(canonical)), visited, log)
      else
        LessUnvisited(disk.files, visited, canonical);
        var visited', log' := visited + {canonical}, log + [canonical];
        match OwnLayer(disk, path, format)
        case Err(error) => Loaded(Err(error), visited', log')
        case Ok((entries, own)) =>
          if entries == [] then Loaded(Ok(own), visited', log')
          else
            var parents := LoadEntries(disk, path, entries, EMPTY, visited', log');
            if parents.result.Err? then parents
            else parents.(result := Ok(Merge(parents.result.value, own, [])))
  }

  /** The loop over the `extends` entries, with its accumulator. */
  function LoadEntries(disk: Disk, path: Path, entries: seq<string>, acc: Value, visited: set<Path>, log: seq<Path>)
    : (r: Loaded)
    requires Valid(disk)
    ensures visited <= r.visited
    decreases |disk.files - visited|, 1, |entries|
  {
    if entries == [] then Loaded(Ok(acc), visited, log)
    else
      match Resolve(disk, path, entries[0])
      case Err(error) => Loaded(Err(error), visited, log)
      case Ok(None) => LoadEntries(disk, path, entries[1..], acc, visited, log)
      case Ok(Some((parent, format))) =>
        var l := Load(disk, parent, format, visited, log);
        FewerUnvisited(disk.files, visited, l.visited);
        if l.result.Err? then l
        else LoadEntries(disk, path, entries[1..], Merge(acc, l.result.value, []), l.visited, l.log)
  }

  lemma LessUnvisited(files: set<Path>, visited: set<Path>, canonical: Path)
    requires canonical in files && canonical !in visited
    ensures |files - (visited + {canonical})| < |files - visited|
  {
    assert files - visited == (files - (visited + {canonical})) + {canonical};
  }

  lemma FewerUnvisited(files: set<Path>, visited: set<Path>, visited': set<Path>)
    requires visited <= visited'
    ensures |files - visited'| <= |files - visited|
  {
    assert files - visited == (files - visited') + (files * (visited' - visited));
  }

  /** The recursive loader with the set of visited files threaded through. */
  method LoadLayer(disk: Disk, path: Path, format: Format, visited: set<Path>, log: seq<Path>) returns (r: Loaded)
    requires Valid(disk)
    ensures r == Load(disk, path, format, visited, log)
    decreases |disk.files - visited|
  {
    if disk.canonicalize(path).None? {
      return Loaded(Err(ReadConfigFile(path)), visited, log);
    }
    var canonical := disk.canonicalize(path).value;
    if canonical in visited {
      return Loaded(Err(CircularExtends(canonical)), visited, log);
    }
    LessUnvisited(disk.files, visited, canonical);
    var visited', log' := visited + {canonical}, log + [canonical];
    var text := disk.contents(path);
    if text.None? {
      return Loaded(Err(ReadConfigFile(path)), visited', log');
    }
    var value := disk.parse(format, text.value);
    if value.None? {
      return Loaded(Err(ParseConfigFile(path)), visited', log');
    }
    var extracted := ExtractExtends(value.value, path);
    if extracted.Err? {
      return Loaded(Err(extracted.error), visited', log');
    }
    var (entries, own) := extracted.value;
    if entries == [] {
      return Loaded(Ok(own), visited', log');
    }
    ghost var parents := LoadEntries(disk, path, entries, EMPTY, visited', log');
    ghost var visited0 := visited';
    var accumulator := EMPTY;
    for i := 0 to |entries|
      invariant visited0 <= visited'
      invariant LoadEntries(disk, path, entries[i..], accumulator, visited', log') == parents
    {
      assert entries[i..][0] == entries[i] && entries[i..][1..] == entries[i + 1..];
      var resolved := Resolve(disk, path, entries[i]);
      if resolved.Err? {
        return Loaded(Err(resolved.error), visited', log');
      }
      if resolved.value.Some? {
        FewerUnvisited(disk.files, visited0, visited');
        var parent := LoadLayer(disk, resolved.value.value.0, resolved.value.value.1, visited', log');
        if parent.result.Err? {
          return parent;
        }
        visited', log' := parent.visited, parent.log;
        var path';
        accumulator, path' := MergeValueInto(accumulator, parent.result.value, []);
      }
    }
    var merged, path'' := MergeValueInto(accumulator, own, []);
    r := Loaded(Ok(merged), visited', log');
  }

  // ---------------------------------------------------------------- each file is opened once

  predicate Distinct<T(==)>(s: seq<T>) {
    forall i, j :: 0 <= i < j < |s| ==> s[i] != s[j]
  }

  function Elements<T(==)>(s: seq<T>): set<T> {
    set x | x in s
  }

  lemma DistinctSnoc<T>(s: seq<T>, x: T)
    requires Distinct(s) && x !in Elements(s)
    ensures Distinct(s + [x]) && Elements(s + [x]) == Elements(s) + {x}
  {
    forall i | 0 <= i < |s| ensures s[i] != x {
      assert s[i] in Elements(s);
    }
  }

  /** Whatever the outcome, no canonical file is opened twice. */
  lemma {:induction false} OpensOnce(disk: Disk, path: Path, format: Format, visited: set<Path>, log: seq<Path>)
    requires Valid(disk) && Distinct(log) && Elements(log) == visited
    ensures var r := Load(disk, path, format, visited, log);
            Distinct(r.log) && Elements(r.log) == r.visited
    decreases |disk.files - visited|, 0, 0
  {
    if disk.canonicalize(path).Some? && disk.canonicalize(path).value !in visited {
      var canonical := disk.canonicalize(path).value;
      LessUnvisited(disk.files, visited, canonical);
      var log' := log + [canonical];
      DistinctSnoc(log, canonical);
      var layer := OwnLayer(disk, path, format);
      if layer.Ok? && layer.value.0 != [] {
        OpensOnceEntries(disk, path, layer.value.0, EMPTY, visited + {canonical}, log');
      }
    }
  }

  lemma {:induction false} OpensOnceEntries(disk: Disk, path: Path, entries: seq<string>, acc: Value,
                                            visited: set<Path>, log: seq<Path>)
    requires Valid(disk) && Distinct(log) && Elements(log) == visited
    ensures var r := LoadEntries(disk, path, entries, acc, visited, log);
            Distinct(r.log) && Elements(r.log) == r.visited
    decreases |disk.files - visited|, 1, |entries|
  {
    if entries != [] {
      match Resolve(disk, path, entries[0])
      case Err(_) =>
      case Ok(None) => OpensOnceEntries(disk, path, entries[1..], acc, visited, log);
      case Ok(Some((parent, format))) =>
        var l := Load(disk, parent, format, visited, log);
        OpensOnce(disk, parent, format, visited, log);
        FewerUnvisited(disk.files, visited, l.visited);
        if l.result.Ok? {
          OpensOnceEntries(disk, path, entries[1..], Merge(acc, l.result.value, []), l.visited, l.log);
        }
    }
  }

  // ---------------------------------------------------------------- the tree of layers

  /** An `extends` tree: a canonical file, its own keys, and the trees it extends. */
  datatype Tree = Node(canonical: Path, own: Value, parents: seq<Tree>)

  /** The tree unfolds the `extends` graph below a file, without looking at repetitions. */
  ghost predicate Unfolds(disk: Disk, path: Path, format: Format, tree: Tree)
    decreases tree, 0
  {
    && disk.canonicalize(path) == Some(tree.canonical)
    && var layer := OwnLayer(disk, path, format);
       layer.Ok? && layer.value.1 == tree.own && UnfoldsEntries(disk, path, layer.value.0, tree.parents)
  }

  /** The trees unfold the given entries; a skipped entry has none. */
  ghost predicate UnfoldsEntries(disk: Disk, path: Path, entries: seq<string>, forest: seq<Tree>)
    decreases forest, |entries|
  {
    if entries == [] then forest == []
    else
      match Resolve(disk, path, entries[0])
      case Err(_) => false
      case Ok(None) => UnfoldsEntries(disk, path, entries[1..], forest)
      case Ok(Some((parent, format))) =>
        && forest != []
        && Unfolds(disk, parent, format, forest[0])
        && UnfoldsEntries(disk, path, entries[1..], forest[1..])
  }

  /** Canonical files of a tree, in the order in which they are opened. */
  function Files(tree: Tree): seq<Path>
    decreases tree, 0
  {
    [tree.canonical] + ForestFiles(tree.parents)
  }

  function ForestFiles(forest: seq<Tree>): seq<Path>
    decreases forest, 0
  {
    if forest == [] then [] else Files(forest[0]) + ForestFiles(forest[1..])
  }

  /** The value the nested merges give. */
  function Nested(tree: Tree): Value
    decreases tree, 0
  {
    if tree.parents == [] then tree.own else Merge(NestedForest(EMPTY, tree.parents), tree.own, [])
  }

  function NestedForest(acc: Value, forest: seq<Tree>): Value
    decreases forest, 0
  {
    if forest == [] then acc else NestedForest(Merge(acc, Nested(forest[0]), []), forest[1..])
  }

  /** Own keys of all layers in depth-first post-order. */
  function Layers(tree: Tree): seq<Value>
    decreases tree, 0
  {
    ForestLayers(tree.parents) + [tree.own]
  }

  function ForestLayers(forest: seq<Tree>): seq<Value>
    decreases forest, 0
  {
    if forest == [] then [] else Layers(forest[0]) + ForestLayers(forest[1..])
  }

  lemma DistinctConcat<T>(s: seq<T>, t: seq<T>)
    ensures Distinct(s + t) <==> Distinct(s) && Distinct(t) && Elements(s) !! Elements(t)
    ensures Elements(s + t) == Elements(s) + Elements(t)
  {
    if Distinct(s + t) {
      forall i, j | 0 <= i < j < |s| ensures s[i] != s[j] {
        assert (s + t)[i] != (s + t)[j];
      }
      forall i, j | 0 <= i < j < |t| ensures t[i] != t[j] {
        assert (s + t)[|s| + i] != (s + t)[|s| + j];
      }
      forall i, j | 0 <= i < |s| && 0 <= j < |t| ensures s[i] != t[j] {
        assert (s + t)[i] != (s + t)[|s| + j];
      }
    } else if Distinct(s) && Distinct(t) && Elements(s) !! Elements(t) {
      forall i, j | 0 <= i < j < |s + t| ensures (s + t)[i] != (s + t)[j] {
        if i < |s| <= j {
          assert s[i] in Elements(s) && t[j - |s|] in Elements(t);
        }
      }
    }
  }

  /** The files of a tree, split at its root. */
  lemma FilesOfTree(tree: Tree, visited: set<Path>)
    requires Distinct(Files(tree)) && Elements(Files(tree)) !! visited
    ensures tree.canonical !in visited
    ensures var rest := ForestFiles(tree.parents);
            && Distinct(rest) && Elements(rest) !! visited + {tree.canonical}
            && visited + {tree.canonical} + Elements(rest) == visited + Elements(Files(tree))
  {
    DistinctConcat([tree.canonical], ForestFiles(tree.parents));
    assert Elements([tree.canonical]) == {tree.canonical};
  }

  /** The files of a forest, split after its first tree. */
  lemma FilesOfForest(forest: seq<Tree>, visited: set<Path>)
    requires forest != [] && Distinct(ForestFiles(forest)) && Elements(ForestFiles(forest)) !! visited
    ensures var first, rest := Files(forest[0]), ForestFiles(forest[1..]);
            && Distinct(first) && Elements(first) !! visited
            && Distinct(rest) && Elements(rest) !! visited + Elements(first)
            && visited + Elements(first) + Elements(rest) == visited + Elements(ForestFiles(forest))
  {
    DistinctConcat(Files(forest[0]), ForestFiles(forest[1..]));
  }

  /** A tree without repetitions, none of its files visited before, loads: to its nested value,
      visiting and opening exactly its files, in order.
   */
  lemma {:induction false} TreeLoads(disk: Disk, path: Path, format: Format, visited: set<Path>, log: seq<Path>, tree: Tree)
    requires Valid(disk) && Unfolds(disk, path, format, tree)
    requires Distinct(Files(tree)) && Elements(Files(tree)) !! visited
    ensures Load(disk, path, format, visited, log)
         == Loaded(Ok(Nested(tree)), visited + Elements(Files(tree)), log + Files(tree))
    decreases tree, 0
  {
    var canonical := tree.canonical;
    var (entries, own) := OwnLayer(disk, path, format).value;
    FilesOfTree(tree, visited);
    ForestLoads(disk, path, entries, EMPTY, visited + {canonical}, log + [canonical], tree.parents);
    assert log + [canonical] + ForestFiles(tree.parents) == log + Files(tree);
    if entries != [] && tree.parents == [] {
      LeftIdentity(own);
    }
  }

  predicate ForestLoaded(disk: Disk, path: Path, entries: seq<string>, acc: Value, visited: set<Path>, log: seq<Path>,
                         forest: seq<Tree>)
    requires Valid(disk)
  {
    LoadEntries(disk, path, entries, acc, visited, log)
      == Loaded(Ok(NestedForest(acc, forest)), visited + Elements(ForestFiles(forest)), log + ForestFiles(forest))
  }

  lemma ForestLoadsNext(disk: Disk, path: Path, entries: seq<string>, acc: Value, visited: set<Path>, log: seq<Path>,
                        forest: seq<Tree>, parent: (Path, Format))
    requires Valid(disk) && forest != [] && Distinct(ForestFiles(forest)) && Elements(ForestFiles(forest)) !! visited
    requires entries != [] && Resolve(disk, path, entries[0]) == Ok(Some(parent))
    requires var first := Files(forest[0]);
             && Load(disk, parent.0, parent.1, visited, log)
             == Loaded(Ok(Nested(forest[0])), visited + Elements(first), log + first)
             && ForestLoaded(disk, path, entries[1..], Merge(acc, Nested(forest[0]), []),
                             visited + Elements(first), log + first, forest[1..])
    ensures ForestLoaded(disk, path, entries, acc, visited, log, forest)
  {
    var first, rest := Files(forest[0]), ForestFiles(forest[1..]);
    FilesOfForest(forest, visited);
    assert log + first + rest == log + (first + rest);
  }

  lemma {:induction false} ForestLoads(disk: Disk, path: Path, entries: seq<string>, acc: Value, visited: set<Path>,
                                       log: seq<Path>, forest: seq<Tree>)
    requires Valid(disk) && UnfoldsEntries(disk, path, entries, forest)
    requires Distinct(ForestFiles(forest)) && Elements(ForestFiles(forest)) !! visited
    ensures ForestLoaded(disk, path, entries, acc, visited, log, forest)
    decreases forest, |entries|
  {
    if entries == [] {
    } else {
      match Resolve(disk, path, entries[0])
      case Ok(None) => ForestLoads(disk, path, entries[1..], acc, visited, log, forest);
      case Ok(Some((parent, format))) =>
        var first := Files(forest[0]);
        FilesOfForest(forest, visited);
        TreeLoads(disk, parent, format, visited, log, forest[0]);
        ForestLoads(disk, path, entries[1..], Merge(acc, Nested(forest[0]), []),
                    visited + Elements(first), log + first, forest[1..]);
        ForestLoadsNext(disk, path, entries, acc, visited, log, forest, (parent, format));
    }
  }

  /** A load that succeeds has walked a tree without repetitions. */
  lemma {:induction false} LoadedTree(disk: Disk, path: Path, format: Format, visited: set<Path>, log: seq<Path>)
    returns (tree: Tree)
    requires Valid(disk) && Load(disk, path, format, visited, log).result.Ok?
    ensures Unfolds(disk, path, format, tree)
    ensures Distinct(Files(tree)) && Elements(Files(tree)) !! visited
    decreases |disk.files - visited|, 0, 0
  {
    var canonical := disk.canonicalize(path).value;
    LessUnvisited(disk.files, visited, canonical);
    var (entries, own) := OwnLayer(disk, path, format).value;
    var forest := [];
    if entries != [] {
      forest := LoadedForest(disk, path, entries, EMPTY, visited + {canonical}, log + [canonical]);
    }
    tree := Node(canonical, own, forest);
    DistinctConcat([canonical], ForestFiles(forest));
    assert Elements([canonical]) == {canonical};
  }

  lemma {:induction false} LoadedForest(disk: Disk, path: Path, entries: seq<string>, acc: Value, visited: set<Path>,
                                        log: seq<Path>)
    returns (forest: seq<Tree>)
    requires Valid(disk) && LoadEntries(disk, path, entries, acc, visited, log).result.Ok?
    ensures UnfoldsEntries(disk, path, entries, forest)
    ensures Distinct(ForestFiles(forest)) && Elements(ForestFiles(forest)) !! visited
    decreases |disk.files - visited|, 1, |entries|
  {
    forest := [];
    if entries != [] {
      match Resolve(disk, path, entries[0])
      case Ok(None) => forest := LoadedForest(disk, path, entries[1..], acc, visited, log);
      case Ok(Some((parent, format))) =>
        var l := Load(disk, parent, format, visited, log);
        var first := LoadedTree(disk, parent, format, visited, log);
        TreeLoads(disk, parent, format, visited, log, first);
        FewerUnvisited(disk.files, visited, l.visited);
        var rest := LoadedForest(disk, path, entries[1..], Merge(acc, l.result.value, []), l.visited, l.log);
        forest := [first] + rest;
        assert forest[1..] == rest;
        DistinctConcat(Files(first), ForestFiles(rest));
    }
  }

  /** Loading succeeds exactly when what the file extends, directly and indirectly, is a tree in
      which no canonical file occurs twice; then the value is the nested merge of that tree.
   */
  lemma LoadSucceedsIffTree(disk: Disk, path: Path, format: Format)
    requires Valid(disk)
    ensures Load(disk, path, format, {}, []).result.Ok? <==>
            exists tree :: Unfolds(disk, path, format, tree) && Distinct(Files(tree))
    ensures forall tree :: Unfolds(disk, path, format, tree) && Distinct(Files(tree)) ==>
              Load(disk, path, format, {}, []) == Loaded(Ok(Nested(tree)), Elements(Files(tree)), Files(tree))
  {
    if Load(disk, path, format, {}, []).result.Ok? {
      var tree := LoadedTree(disk, path, format, {}, []);
    }
    forall tree | Unfolds(disk, path, format, tree) && Distinct(Files(tree))
      ensures Load(disk, path, format, {}, []) == Loaded(Ok(Nested(tree)), Elements(Files(tree)), Files(tree))
    {
      TreeLoads(disk, path, format, {}, [], tree);
      assert {} + Elements(Files(tree)) == Elements(Files(tree)) && [] + Files(tree) == Files(tree);
    }
  }

  // ---------------------------------------------------------------- flattening

  lemma AgreeingParts(acc: Value, xs: seq<Value>, ys: seq<Value>)
    requires Agreeing([acc] + (xs + ys))
    ensures Agreeing([acc] + xs) && Agreeing([FoldLayers(acc, xs)] + ys)
  {
    var all := [acc] + (xs + ys);
    assert forall i :: 0 <= i < |[acc] + xs| ==> ([acc] + xs)[i] == all[i];
    FoldIsObject(acc, xs) by {
      assert acc == all[0] && forall i :: 0 <= i < |xs| ==> xs[i] == all[i + 1];
    }
    var both := [FoldLayers(acc, xs)] + ys;
    forall i | 0 <= i < |both| ensures both[i].Object? {
      assert i > 0 ==> both[i] == all[|xs| + i];
    }
    forall i, j | 0 <= i < j < |both| ensures KindsAgree(both[i], both[j]) {
      if i > 0 {
        assert both[i] == all[|xs| + i] && both[j] == all[|xs| + j];
      } else {
        FoldAgrees(acc, xs, ys, j - 1);
      }
    }
  }

  lemma FoldAgrees(acc: Value, xs: seq<Value>, ys: seq<Value>, j: nat)
    requires Agreeing([acc] + (xs + ys)) && j < |ys|
    ensures KindsAgree(FoldLayers(acc, xs), ys[j])
  {
    var all := [acc] + (xs + ys);
    var y := all[|xs| + 1 + j];
    assert y == ys[j];
    KindsAgreeSymmetric(all[0], y);
    forall i | 0 <= i < |xs| ensures KindsAgree(y, xs[i]) {
      assert all[i + 1] == xs[i];
      KindsAgreeSymmetric(all[i + 1], y);
    }
    AgreeWithFold(y, acc, xs);
    KindsAgreeSymmetric(y, FoldLayers(acc, xs));
  }

  lemma AgreeingWithEmpty(layers: seq<Value>)
    requires Agreeing(layers)
    ensures Agreeing([EMPTY] + layers)
  {
    var all := [EMPTY] + layers;
    assert forall i :: 0 < i < |all| ==> all[i] == layers[i - 1];
  }

  lemma AgreeingPrefix(xs: seq<Value>, ys: seq<Value>)
    requires Agreeing(xs + ys)
    ensures Agreeing(xs) && Agreeing(ys)
  {
    assert forall i :: 0 <= i < |xs| ==> xs[i] == (xs + ys)[i];
    assert forall i :: 0 <= i < |ys| ==> ys[i] == (xs + ys)[|xs| + i];
  }

  /** Merging every parent's own nested result is merging all layers in a row. */
  lemma {:induction false} NestedIsFlat(tree: Tree)
    requires Agreeing(Layers(tree))
    ensures Nested(tree) == FoldLayers(EMPTY, Layers(tree))
    decreases tree, 0
  {
    AgreeingPrefix(ForestLayers(tree.parents), [tree.own]);
    AgreeingWithEmpty(ForestLayers(tree.parents));
    NestedForestIsFlat(EMPTY, tree.parents);
    FoldConcat(EMPTY, ForestLayers(tree.parents), [tree.own]);
    var layers := ForestLayers(tree.parents);
    assert FoldLayers(FoldLayers(EMPTY, layers), [tree.own]) == Merge(FoldLayers(EMPTY, layers), tree.own, []) by {
      assert [tree.own][..0] == [];
    }
    if tree.parents == [] {
      LeftIdentity(tree.own);
    }
  }

  lemma {:induction false} NestedForestIsFlat(acc: Value, forest: seq<Tree>)
    requires Agreeing([acc] + ForestLayers(forest))
    ensures NestedForest(acc, forest) == FoldLayers(acc, ForestLayers(forest))
    decreases forest, 1
  {
    if forest != [] {
      var first, rest := Layers(forest[0]), ForestLayers(forest[1..]);
      AgreeingParts(acc, first, rest);
      AgreeingPrefix([acc], first);
      NestedIsFlat(forest[0]);
      FoldedBlock(acc, first);
      NestedForestIsFlat(FoldLayers(acc, first), forest[1..]);
      FoldConcat(acc, first, rest);
    }
  }

  /** Loading equals one left fold over all layers, for layers that agree in kind. */
  lemma LoadIsFlat(disk: Disk, path: Path, format: Format, tree: Tree)
    requires Valid(disk) && Unfolds(disk, path, format, tree) && Distinct(Files(tree)) && Agreeing(Layers(tree))
    ensures Load(disk, path, format, {}, []).result == Ok(FoldLayers(EMPTY, Layers(tree)))
  {
    LoadSucceedsIffTree(disk, path, format);
    NestedIsFlat(tree);
  }

  // ---------------------------------------------------------------- what a file itself says

  /** What a value says at a place, another has there too; an array may follow other items. */
  predicate Keeps(merged: Value, own: Value, p: seq<string>)
    requires Has(own, p)
  {
    && Has(merged, p)
    && var m, o := At(merged, p), At(own, p);
       if o.Object? then m.Object? && o.fields.Keys <= m.fields.Keys
       else if o.Array? then
         && m.Array? && |o.items| <= |m.items| && m.items[|m.items| - |o.items|..] == o.items
         && (IsCommand(p) ==> m == o)
       else m == o
  }

  lemma LaterIsKept(before: Value, own: Value, p: seq<string>)
    requires Has(own, p)
    ensures Keeps(Merge(before, own, []), own, p)
  {
    MergeIs(before, own, [], p);
    assert [] + p == p;
  }

  lemma SameWithoutDirective(value: Value, own: Value, p: seq<string>)
    requires WithoutDirective(value, own) && p != [] && p[0] != "extends"
    ensures Has(own, p) <==> Has(value, p)
    ensures Has(own, p) ==> At(own, p) == At(value, p)
  {
  }

  /** A file's own keys have the last word: whatever it says at any place but the directive, the
      loaded value says there.
   */
  lemma LoadKeepsOwn(disk: Disk, path: Path, format: Format, visited: set<Path>, log: seq<Path>, text: string,
                     value: Value, p: seq<string>)
    requires Valid(disk) && Load(disk, path, format, visited, log).result.Ok?
    requires disk.contents(path) == Some(text) && disk.parse(format, text) == Some(value)
    requires p != [] && p[0] != "extends" && Has(value, p)
    ensures Keeps(Load(disk, path, format, visited, log).result.value, value, p)
  {
    var loaded := Load(disk, path, format, visited, log);
    var canonical := disk.canonicalize(path).value;
    ExtractIs(value, path);
    var (entries, own) := Extract(value, path).value;
    SameWithoutDirective(value, own, p);
    if entries != [] {
      var before := LoadEntries(disk, path, entries, EMPTY, visited + {canonical}, log + [canonical]);
      assert loaded.result.value == Merge(before.result.value, own, []);
      LaterIsKept(before.result.value, own, p);
    } else {
      assert loaded.result.value == own;
    }
  }

  /** The directive itself is never part of what is loaded. */
  predicate NoDirective(v: Value) {
    v.Object? ==> "extends" !in v.fields
  }

  lemma NoDirectiveMerged(a: Value, b: Value)
    requires NoDirective(a) && NoDirective(b)
    ensures NoDirective(Merge(a, b, []))
  {
  }

  lemma {:induction false} DirectiveGone(disk: Disk, path: Path, format: Format, visited: set<Path>, log: seq<Path>)
    requires Valid(disk) && Load(disk, path, format, visited, log).result.Ok?
    ensures NoDirective(Load(disk, path, format, visited, log).result.value)
    decreases |disk.files - visited|, 0, 0
  {
    var canonical := disk.canonicalize(path).value;
    LessUnvisited(disk.files, visited, canonical);
    var value := disk.parse(format, disk.contents(path).value).value;
    ExtractIs(value, path);
    var (entries, own) := Extract(value, path).value;
    assert NoDirective(own);
    if entries != [] {
      DirectiveGoneEntries(disk, path, entries, EMPTY, visited + {canonical}, log + [canonical]);
      NoDirectiveMerged(LoadEntries(disk, path, entries, EMPTY, visited + {canonical}, log + [canonical]).result.value, own);
    }
  }

  lemma {:induction false} DirectiveGoneEntries(disk: Disk, path: Path, entries: seq<string>, acc: Value,
                                                visited: set<Path>, log: seq<Path>)
    requires Valid(disk) && NoDirective(acc) && LoadEntries(disk, path, entries, acc, visited, log).result.Ok?
    ensures NoDirective(LoadEntries(disk, path, entries, acc, visited, log).result.value)
    decreases |disk.files - visited|, 1, |entries|
  {
    if entries != [] {
      match Resolve(disk, path, entries[0])
      case Ok(None) => DirectiveGoneEntries(disk, path, entries[1..], acc, visited, log);
      case Ok(Some((parent, format))) =>
        var l := Load(disk, parent, format, visited, log);
        DirectiveGone(disk, parent, format, visited, log);
        FewerUnvisited(disk.files, visited, l.visited);
        NoDirectiveMerged(acc, l.result.value);
        DirectiveGoneEntries(disk, path, entries[1..], Merge(acc, l.result.value, []), l.visited, l.log);
    }
  }

  lemma {:induction false} LastParentIsKept(acc: Value, forest: seq<Tree>, p: seq<string>)
    requires forest != [] && Has(Nested(forest[|forest| - 1]), p)
    ensures Keeps(NestedForest(acc, forest), Nested(forest[|forest| - 1]), p)
    decreases |forest|
  {
    if |forest| == 1 {
      assert forest[1..] == [];
      LaterIsKept(acc, Nested(forest[0]), p);
    } else {
      LastParentIsKept(Merge(acc, Nested(forest[0]), []), forest[1..], p);
    }
  }

  /** Of several parents the last one decides where the file itself says nothing. */
  lemma LastParentDecides(tree: Tree, p: seq<string>)
    requires tree.parents != [] && Has(Nested(tree.parents[|tree.parents| - 1]), p)
    requires !Has(tree.own, p) && !Blocks(tree.own, p)
    ensures Keeps(Nested(tree), Nested(tree.parents[|tree.parents| - 1]), p)
  {
    LastParentIsKept(EMPTY, tree.parents, p);
    MergeIs(NestedForest(EMPTY, tree.parents), tree.own, [], p);
  }

  // ---------------------------------------------------------------- failures and cycles

  /** A file all of whose entries lead to other files of the collection. */
  ghost predicate Healthy(disk: Disk, known: set<(Path, Format)>, file: (Path, Format)) {
    && disk.canonicalize(file.0).Some?
    && var layer := OwnLayer(disk, file.0, file.1);
       layer.Ok? && forall entry :: entry in layer.value.0 ==> LeadsInto(disk, known, file.0, entry)
  }

  ghost predicate LeadsInto(disk: Disk, known: set<(Path, Format)>, path: Path, entry: string) {
    var r := Resolve(disk, path, entry);
    r.Ok? && (r.value.Some? ==> r.value.value in known)
  }

  ghost predicate AllHealthy(disk: Disk, known: set<(Path, Format)>) {
    forall file :: file in known ==> Healthy(disk, known, file)
  }

  /** With nothing else wrong, a load fails only for a file that was visited before. */
  lemma {:induction false} OnlyRepetitionFails(disk: Disk, known: set<(Path, Format)>, path: Path, format: Format,
                                               visited: set<Path>, log: seq<Path>)
    requires Valid(disk) && AllHealthy(disk, known) && (path, format) in known
    ensures var r := Load(disk, path, format, visited, log);
            r.result.Err? ==> r.result.error.CircularExtends? && r.result.error.canonical in r.visited
    decreases |disk.files - visited|, 0, 0
  {
    assert Healthy(disk, known, (path, format));
    var canonical := disk.canonicalize(path).value;
    if canonical !in visited {
      LessUnvisited(disk.files, visited, canonical);
      var entries := OwnLayer(disk, path, format).value.0;
      if entries != [] {
        OnlyRepetitionFailsEntries(disk, known, path, entries, EMPTY, visited + {canonical}, log + [canonical]);
      }
    }
  }

  lemma {:induction false} OnlyRepetitionFailsEntries(disk: Disk, known: set<(Path, Format)>, path: Path,
                                                      entries: seq<string>, acc: Value, visited: set<Path>,
                                                      log: seq<Path>)
    requires Valid(disk) && AllHealthy(disk, known)
    requires forall entry :: entry in entries ==> LeadsInto(disk, known, path, entry)
    ensures var r := LoadEntries(disk, path, entries, acc, visited, log);
            r.result.Err? ==> r.result.error.CircularExtends? && r.result.error.canonical in r.visited
    decreases |disk.files - visited|, 1, |entries|
  {
    if entries != [] {
      assert LeadsInto(disk, known, path, entries[0]);
      match Resolve(disk, path, entries[0])
      case Ok(None) => OnlyRepetitionFailsEntries(disk, known, path, entries[1..], acc, visited, log);
      case Ok(Some((parent, format))) =>
        var l := Load(disk, parent, format, visited, log);
        OnlyRepetitionFails(disk, known, parent, format, visited, log);
        FewerUnvisited(disk.files, visited, l.visited);
        if l.result.Ok? {
          OnlyRepetitionFailsEntries(disk, known, path, entries[1..], Merge(acc, l.result.value, []), l.visited, l.log);
        }
    }
  }

  /** One file extends another. */
  ghost predicate Extends(disk: Disk, file: (Path, Format), parent: (Path, Format)) {
    var layer := OwnLayer(disk, file.0, file.1);
    layer.Ok? && exists entry :: entry in layer.value.0 && Resolve(disk, file.0, entry) == Ok(Some(parent))
  }

  /** Each file of the chain extends the next. */
  ghost predicate Chain(disk: Disk, chain: seq<(Path, Format)>) {
    |chain| > 1 ==> Extends(disk, chain[0], chain[1]) && Chain(disk, chain[1..])
  }

  lemma {:induction false} ParentInForest(disk: Disk, path: Path, entries: seq<string>, forest: seq<Tree>,
                                          entry: string, parent: (Path, Format))
    returns (k: nat)
    requires UnfoldsEntries(disk, path, entries, forest)
    requires entry in entries && Resolve(disk, path, entry) == Ok(Some(parent))
    ensures k < |forest| && Unfolds(disk, parent.0, parent.1, forest[k])
    decreases |entries|
  {
    if entries[0] == entry {
      k := 0;
    } else {
      assert entries == [entries[0]] + entries[1..];
      match Resolve(disk, path, entries[0])
      case Ok(None) => k := ParentInForest(disk, path, entries[1..], forest, entry, parent);
      case Ok(Some(_)) =>
        k := ParentInForest(disk, path, entries[1..], forest[1..], entry, parent);
        k := k + 1;
    }
  }

  lemma {:induction false} ForestContains(forest: seq<Tree>, k: nat)
    requires k < |forest| && Distinct(ForestFiles(forest))
    ensures Distinct(Files(forest[k])) && Elements(Files(forest[k])) <= Elements(ForestFiles(forest))
  {
    DistinctConcat(Files(forest[0]), ForestFiles(forest[1..]));
    if k > 0 {
      ForestContains(forest[1..], k - 1);
    }
  }

  ghost predicate CanonicalIn(disk: Disk, file: (Path, Format), paths: set<Path>) {
    disk.canonicalize(file.0).Some? && disk.canonicalize(file.0).value in paths
  }

  /** The subtree of a parent: again without repetitions, and without the file itself. */
  lemma ParentTree(disk: Disk, file: (Path, Format), parent: (Path, Format), tree: Tree) returns (sub: Tree)
    requires Extends(disk, file, parent) && Unfolds(disk, file.0, file.1, tree) && Distinct(Files(tree))
    ensures Unfolds(disk, parent.0, parent.1, sub) && Distinct(Files(sub))
    ensures Elements(Files(sub)) <= Elements(Files(tree)) && tree.canonical !in Elements(Files(sub))
  {
    DistinctConcat([tree.canonical], ForestFiles(tree.parents));
    assert tree.canonical in Elements([tree.canonical]);
    var entries := OwnLayer(disk, file.0, file.1).value.0;
    var entry :| entry in entries && Resolve(disk, file.0, entry) == Ok(Some(parent));
    var k := ParentInForest(disk, file.0, entries, tree.parents, entry, parent);
    ForestContains(tree.parents, k);
    sub := tree.parents[k];
  }

  /** Along any chain below a tree without repetitions the canonical files are pairwise distinct. */
  lemma {:induction false} ChainIsDistinct(disk: Disk, chain: seq<(Path, Format)>, tree: Tree)
    requires chain != [] && Chain(disk, chain) && Unfolds(disk, chain[0].0, chain[0].1, tree) && Distinct(Files(tree))
    ensures forall i :: 0 <= i < |chain| ==> CanonicalIn(disk, chain[i], Elements(Files(tree)))
    ensures forall i, j :: 0 <= i < j < |chain| ==>
              disk.canonicalize(chain[i].0) != disk.canonicalize(chain[j].0)
    decreases |chain|
  {
    assert tree.canonical in Files(tree);
    if |chain| > 1 {
      var rest := chain[1..];
      var sub := ParentTree(disk, chain[0], chain[1], tree);
      ChainIsDistinct(disk, rest, sub);
      forall i | 1 <= i < |chain|
        ensures CanonicalIn(disk, chain[i], Elements(Files(sub)))
      {
        assert CanonicalIn(disk, rest[i - 1], Elements(Files(sub)));
      }
      forall i, j | 1 <= i < j < |chain|
        ensures disk.canonicalize(chain[i].0) != disk.canonicalize(chain[j].0)
      {
        assert disk.canonicalize(rest[i - 1].0) != disk.canonicalize(rest[j - 1].0);
      }
    }
  }

  predicate ReportsCircular(l: Loaded) {
    l.result.Err? && l.result.error.CircularExtends?
  }

  /** A load over a cycle never succeeds, whatever else is wrong: if files extend one another back to
      the same canonical file, loading the first of them fails.
   */
  lemma CycleNeverLoads(disk: Disk, chain: seq<(Path, Format)>, i: nat, j: nat)
    requires Valid(disk) && Chain(disk, chain) && i < j < |chain|
    requires disk.canonicalize(chain[i].0) == disk.canonicalize(chain[j].0)
    ensures Load(disk, chain[0].0, chain[0].1, {}, []).result.Err?
  {
    var (path, format) := chain[0];
    if Load(disk, path, format, {}, []).result.Ok? {
      var tree := LoadedTree(disk, path, format, {}, []);
      ChainIsDistinct(disk, chain, tree);
      assert false;
    }
  }

  /** Every cycle is reported: if files extend one another back to the same canonical file and
      nothing else is wrong, the load fails with `CircularExtends`.
   */
  lemma CycleIsReported(disk: Disk, known: set<(Path, Format)>, chain: seq<(Path, Format)>, i: nat, j: nat)
    requires Valid(disk) && AllHealthy(disk, known) && Chain(disk, chain)
    requires i < j < |chain| && chain[0] in known
    requires disk.canonicalize(chain[i].0) == disk.canonicalize(chain[j].0)
    ensures ReportsCircular(Load(disk, chain[0].0, chain[0].1, {}, []))
  {
    var (path, format) := chain[0];
    OnlyRepetitionFails(disk, known, path, format, {}, []);
    CycleNeverLoads(disk, chain, i, j);
  }

  /** With nothing else wrong, `CircularExtends` means just that the graph is not a tree; a file
      reached twice without any cycle is reported all the same.
   */
  lemma CircularIffNotTree(disk: Disk, known: set<(Path, Format)>, path: Path, format: Format)
    requires Valid(disk) && AllHealthy(disk, known) && (path, format) in known
    ensures ReportsCircular(Load(disk, path, format, {}, []))
       <==> !exists tree :: Unfolds(disk, path, format, tree) && Distinct(Files(tree))
  {
    OnlyRepetitionFails(disk, known, path, format, {}, []);
    LoadSucceedsIffTree(disk, path, format);
  }

  // ---------------------------------------------------------------- a diamond

  function DiamondFile(text: string): Value {
    if text == "top" then Object(map["extends" := Array([String("left"), String("right")])])
    else if text == "left" || text == "right" then Object(map["extends" := String("base")])
    else EMPTY
  }

  /** Four files: the first extends two, and both of these extend the last. */
  function Diamond(): Disk {
    var files := {"top", "left", "right", "base"};
    Disk(p => if p in files then Some(p) else None, p => Some(p), (format, text) => Some(DiamondFile(text)),
         (p, entry) => entry, p => File, (dir, name) => dir + name, p => Some(Json), files)
  }

  function Depth(path: Path): nat {
    if path == "top" then 0 else if path == "left" || path == "right" then 1 else 2
  }

  lemma DiamondDescends(file: (Path, Format), parent: (Path, Format))
    requires Extends(Diamond(), file, parent)
    ensures Depth(file.0) < Depth(parent.0) && Diamond().canonicalize(file.0) == Some(file.0)
  {
    var d := Diamond();
    var entries := OwnLayer(d, file.0, file.1).value.0;
    var entry :| entry in entries && Resolve(d, file.0, entry) == Ok(Some(parent));
    assert parent == (entry, Json);
    assert OwnLayer(d, file.0, file.1) == Extract(DiamondFile(file.0), file.0);
    assert entries == (if file.0 == "top" then ["left", "right"] else ["base"]);
  }

  lemma {:induction false} DiamondChain(chain: seq<(Path, Format)>, i: nat, j: nat)
    requires Chain(Diamond(), chain) && i < j < |chain|
    ensures Depth(chain[i].0) < Depth(chain[j].0) && Diamond().canonicalize(chain[i].0) == Some(chain[i].0)
    decreases |chain|
  {
    if i > 0 {
      DiamondChain(chain[1..], i - 1, j - 1);
    } else {
      DiamondDescends(chain[0], chain[1]);
      if j > 1 {
        DiamondChain(chain[1..], 0, j - 1);
      }
    }
  }

  /** No file extends itself over any number of steps, and yet the load is reported as circular. */
  lemma DiamondIsCircular()
    ensures Valid(Diamond()) && Load(Diamond(), "top", Json, {}, []).result == Err(CircularExtends("base"))
    ensures forall chain: seq<(Path, Format)>, i, j :: Chain(Diamond(), chain) && 0 <= i < j < |chain| ==>
              Diamond().canonicalize(chain[i].0) != Diamond().canonicalize(chain[j].0)
  {
    var d := Diamond();
    forall chain: seq<(Path, Format)>, i, j | Chain(d, chain) && 0 <= i < j < |chain|
      ensures d.canonicalize(chain[i].0) != d.canonicalize(chain[j].0)
    {
      DiamondChain(chain, i, j);
    }
    DiamondLayers();
    var seen := {"top", "left", "base"};
    assert {"top", "left"} + {"base"} == seen;
    var base := Load(d, "base", Json, {"top", "left"}, ["top", "left"]);
    assert base.result.Ok? && base.visited == seen;
    assert ["base"][1..] == [] && ["left", "right"][1..] == ["right"];
    var left := Load(d, "left", Json, {"top"}, ["top"]);
    assert {"top"} + {"left"} == {"top", "left"} && ["top"] + ["left"] == ["top", "left"];
    assert left.result.Ok? && left.visited == seen;
    DiamondRight(left.log);
    assert {} + {"top"} == {"top"} && [] + ["top"] == ["top"];
  }

  lemma DiamondLayers()
    ensures var d := Diamond();
            && OwnLayer(d, "top", Json) == Ok((["left", "right"], EMPTY))
            && OwnLayer(d, "left", Json) == Ok((["base"], EMPTY))
            && OwnLayer(d, "right", Json) == Ok((["base"], EMPTY))
            && OwnLayer(d, "base", Json) == Ok(([], EMPTY))
  {
    assert Strings([String("left"), String("right")]) == ["left", "right"];
    assert map["extends" := Array([String("left"), String("right")])] - {"extends"} == map[];
    assert map["extends" := String("base")] - {"extends"} == map[];
  }

  lemma DiamondRight(log: seq<Path>)
    ensures Load(Diamond(), "right", Json, {"top", "left", "base"}, log).result == Err(CircularExtends("base"))
  {
    DiamondLayers();
    var seen := {"top", "left", "base"} + {"right"};
    assert Load(Diamond(), "base", Json, seen, log + ["right"]).result == Err(CircularExtends("base"));
    assert LoadEntries(Diamond(), "right", ["base"], EMPTY, seen, log + ["right"]).result == Err(CircularExtends("base"));
  }
}
