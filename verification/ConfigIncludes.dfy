/** Include expansion of src/config/mod.rs over an arbitrary finite set of files. */
module ConfigIncludes {
  import opened Common
  import Syntax = ConfigSyntax

  type Directive = Syntax.Directive
  type Path = string

  /** The file system as the loader sees it: the readable files, the canonical path an include
      argument resolves to from a base directory, and the directory of a file. */
  datatype Files = Files(texts: map<Path, string>, resolve: map<(Path, string), Path>, parent: map<Path, Path>)
  {
    function ParentOf(p: Path): Path { if p in parent then parent[p] else "." }
  }

  datatype Error =
    | NeedsPath(line: nat)
    | Unresolved(line: nat, raw: string)
    | Cycle(line: nat, path: Path)
    | Unreadable(line: nat, path: Path)
    | BadSyntax(error: Syntax.Error)
    | NoConfig(path: Path)

  type Expanded = Result<seq<Directive>, Error>

  /** The directives written in one text. */
  ghost function Content(text: string): Result<seq<Directive>, Syntax.Error> {
    var lexed := Syntax.Lexes(text, 1);
    if lexed.Err? then Err(lexed.error)
    else
      var parsed := Syntax.Parses(lexed.value, false);
      if parsed.Err? then Err(parsed.error) else Ok(parsed.value.0)
  }

  /** Resolve, check for a cycle, read and parse the target of an include. */
  ghost function Target(fs: Files, d: Directive, base: Path, visited: set<Path>): Result<(Path, seq<Directive>), Error> {
    if d.args == [] then Err(NeedsPath(d.line))
    else if (base, d.args[0]) !in fs.resolve then Err(Unresolved(d.line, d.args[0]))
    else
      var path := fs.resolve[(base, d.args[0])];
      if path in visited then Err(Cycle(d.line, path))
      else if path !in fs.texts then Err(Unreadable(d.line, path))
      else match Content(fs.texts[path])
        case Ok(dirs) => Ok((path, dirs))
        case Err(e) => Err(BadSyntax(e))
  }

  ghost function Then(first: Expanded, rest: Expanded): Expanded {
    if first.Err? then first else if rest.Err? then rest else Ok(first.value + rest.value)
  }

  /** Expansion with the set of files that are being expanded.  It terminates on every finite file
      set, cyclic or not. */
  ghost function Expand(fs: Files, dirs: seq<Directive>, base: Path, visited: set<Path>): Expanded
    decreases |fs.texts.Keys - visited|, dirs
  {
    if dirs == [] then Ok([])
    else Then(ExpandOne(fs, dirs[0], base, visited), Expand(fs, dirs[1..], base, visited))
  }

  ghost function ExpandOne(fs: Files, d: Directive, base: Path, visited: set<Path>): Expanded
    decreases |fs.texts.Keys - visited|, d
  {
    if d.name == "include" then
      match Target(fs, d, base, visited)
      case Err(e) => Err(e)
      case Ok((path, dirs)) =>
        Shrinks(fs, visited, path);
        Expand(fs, dirs, fs.ParentOf(path), visited + {path})
    else match d.block
      case NoBlock => Ok([d])
      case Body(dirs) =>
        var inner := Expand(fs, dirs, base, visited);
        if inner.Err? then inner else Ok([d.(block := Syntax.Body(inner.value))])
  }

  lemma Shrinks(fs: Files, visited: set<Path>, path: Path)
    requires path in fs.texts && path !in visited
    ensures |fs.texts.Keys - (visited + {path})| == |fs.texts.Keys - visited| - 1
  {
    var left := fs.texts.Keys - visited;
    assert fs.texts.Keys - (visited + {path}) == left - {path};
  }

  // ----- The loader -----

  method ReadContent(text: string) returns (r: Result<seq<Directive>, Syntax.Error>)
    ensures r == Content(text)
  {
    var tokens := Syntax.Lex(text);
    if tokens.Err? {
      return Err(tokens.error);
    }
    r := Syntax.Parse(tokens.value);
  }

  lemma ThenAssoc(out: seq<Directive>, first: seq<Directive>, rest: Expanded)
    ensures Then(Ok(out), Then(Ok(first), rest)) == Then(Ok(out + first), rest)
  {
    if rest.Ok? {
      assert out + (first + rest.value) == out + first + rest.value;
    }
  }

  /** `expand_includes`: the visited set goes in as `visited` and comes back as `after`; on success
      it is restored. */
  method ExpandIncludes(fs: Files, dirs: seq<Directive>, base: Path, visited: set<Path>)
    returns (r: Expanded, after: set<Path>)
    ensures r == Expand(fs, dirs, base, visited)
    ensures r.Ok? ==> after == visited
    decreases |fs.texts.Keys - visited|, dirs
  {
    var out: seq<Directive> := [];
    after := visited;
    var all := Expand(fs, dirs, base, visited);
    assert Then(Ok([]), all) == all by { if all.Ok? { assert [] + all.value == all.value; } }
    for i := 0 to |dirs|
      invariant after == visited
      invariant all == Then(Ok(out), Expand(fs, dirs[i..], base, visited))
    {
      var d := dirs[i];
      var one: Expanded;
      assert dirs[i..][1..] == dirs[i + 1..];
      if d.name == "include" {
        one, after := ExpandTarget(fs, d, base, visited, dirs);
        if one.Err? {
          return one, after;
        }
      } else if d.block.Body? {
        var inner;
        inner, after := ExpandIncludes(fs, d.block.dirs, base, after);
        if inner.Err? {
          return inner, after;
        }
        one := Ok([d.(block := Syntax.Body(inner.value))]);
      } else {
        one := Ok([d]);
      }
      ThenAssoc(out, one.value, Expand(fs, dirs[i + 1..], base, visited));
      out := out + one.value;
    }
    assert out + [] == out;
    r := Ok(out);
  }

  /** The include branch of the loop body. */
  method ExpandTarget(fs: Files, d: Directive, base: Path, visited: set<Path>, ghost dirs: seq<Directive>)
    returns (r: Expanded, after: set<Path>)
    requires d.name == "include" && d in dirs
    ensures r == ExpandOne(fs, d, base, visited)
    ensures r.Ok? ==> after == visited
    decreases |fs.texts.Keys - visited|, dirs, 0
  {
    after := visited;
    if d.args == [] {
      return Err(NeedsPath(d.line)), after;
    }
    var raw := d.args[0];
    if (base, raw) !in fs.resolve {
      return Err(Unresolved(d.line, raw)), after;
    }
    var path := fs.resolve[(base, raw)];
    if path in after {
      return Err(Cycle(d.line, path)), after;
    }
    after := after + {path};
    if path !in fs.texts {
      return Err(Unreadable(d.line, path)), after;
    }
    var sub := ReadContent(fs.texts[path]);
    if sub.Err? {
      return Err(BadSyntax(sub.error)), after;
    }
    Shrinks(fs, visited, path);
    r, after := ExpandIncludes(fs, sub.value, fs.ParentOf(path), after);
    if r.Ok? {
      after := after - {path};
    }
  }

  /** The file part of `load`: parse the root file and expand it. */
  method LoadDirectives(fs: Files, root: Path) returns (r: Expanded)
    ensures r == Load(fs, root)
  {
    if root !in fs.texts {
      return Err(NoConfig(root));
    }
    var dirs := ReadContent(fs.texts[root]);
    if dirs.Err? {
      return Err(BadSyntax(dirs.error));
    }
    var visited;
    r, visited := ExpandIncludes(fs, dirs.value, fs.ParentOf(root), {root});
  }

  ghost function Load(fs: Files, root: Path): Expanded {
    if root !in fs.texts then Err(NoConfig(root))
    else match Content(fs.texts[root])
      case Err(e) => Err(BadSyntax(e))
      case Ok(dirs) => Expand(fs, dirs, fs.ParentOf(root), {root})
  }

  // ----- Recursive inlining, without a visited set -----

  /** Replace every include by the inlined content of its file, to at most `n` files deep; None if
      a file is missing or malformed, or the depth does not suffice. */
  ghost function Inline(fs: Files, dirs: seq<Directive>, base: Path, n: nat): Option<seq<Directive>>
    decreases n, dirs
  {
    if dirs == [] then Some([])
    else
      var first, rest := InlineOne(fs, dirs[0], base, n), Inline(fs, dirs[1..], base, n);
      if first.None? || rest.None? then None else Some(first.value + rest.value)
  }

  ghost function InlineOne(fs: Files, d: Directive, base: Path, n: nat): Option<seq<Directive>>
    decreases n, d
  {
    if d.name == "include" then
      if n == 0 || Target(fs, d, base, {}).Err? then None
      else
        var (path, dirs) := Target(fs, d, base, {}).value;
        Inline(fs, dirs, fs.ParentOf(path), n - 1)
    else match d.block
      case NoBlock => Some([d])
      case Body(dirs) =>
        var inner := Inline(fs, dirs, base, n);
        if inner.None? then None else Some([d.(block := Syntax.Body(inner.value))])
  }

  ghost function InlineFile(fs: Files, path: Path, n: nat): Option<seq<Directive>> {
    if path !in fs.texts then None
    else match Content(fs.texts[path])
      case Err(_) => None
      case Ok(dirs) => Inline(fs, dirs, fs.ParentOf(path), n)
  }

  lemma {:induction false} MoreDepth(fs: Files, dirs: seq<Directive>, base: Path, m: nat, n: nat)
    requires m <= n && Inline(fs, dirs, base, m).Some?
    ensures Inline(fs, dirs, base, n) == Inline(fs, dirs, base, m)
    decreases m, dirs
  {
    if dirs != [] {
      MoreDepthOne(fs, dirs[0], base, m, n);
      MoreDepth(fs, dirs[1..], base, m, n);
    }
  }

  lemma {:induction false} MoreDepthOne(fs: Files, d: Directive, base: Path, m: nat, n: nat)
    requires m <= n && InlineOne(fs, d, base, m).Some?
    ensures InlineOne(fs, d, base, n) == InlineOne(fs, d, base, m)
    decreases m, d
  {
    if d.name == "include" {
      var (path, dirs) := Target(fs, d, base, {}).value;
      MoreDepth(fs, dirs, fs.ParentOf(path), m - 1, n - 1);
    } else if d.block.Body? {
      MoreDepth(fs, d.block.dirs, base, m, n);
    }
  }

  lemma FileMoreDepth(fs: Files, path: Path, m: nat, n: nat)
    requires m <= n && InlineFile(fs, path, m).Some?
    ensures InlineFile(fs, path, n) == InlineFile(fs, path, m)
  {
    MoreDepth(fs, Content(fs.texts[path]).value, fs.ParentOf(path), m, n);
  }

  // ----- Expansion is inlining -----

  /** Success of the expansion gives the recursive inlining, at a depth of at most the number of
      files not yet visited. */
  lemma {:induction false} ExpandIsInline(fs: Files, dirs: seq<Directive>, base: Path, visited: set<Path>)
    requires Expand(fs, dirs, base, visited).Ok?
    ensures Inline(fs, dirs, base, |fs.texts.Keys - visited|) == Some(Expand(fs, dirs, base, visited).value)
    decreases |fs.texts.Keys - visited|, dirs
  {
    if dirs != [] {
      ExpandOneIsInline(fs, dirs[0], base, visited);
      ExpandIsInline(fs, dirs[1..], base, visited);
    }
  }

  lemma TargetUnvisited(fs: Files, d: Directive, base: Path, visited: set<Path>)
    requires Target(fs, d, base, visited).Ok?
    ensures Target(fs, d, base, {}) == Target(fs, d, base, visited)
    ensures var path := Target(fs, d, base, visited).value.0; path in fs.texts && path !in visited
  {
  }

  /** One include, unfolded on both sides. */
  lemma IncludeUnfolds(fs: Files, d: Directive, base: Path, visited: set<Path>)
    requires d.name == "include" && Target(fs, d, base, visited).Ok?
    ensures var (path, dirs) := Target(fs, d, base, visited).value;
            && path in fs.texts && path !in visited
            && ExpandOne(fs, d, base, visited) == Expand(fs, dirs, fs.ParentOf(path), visited + {path})
            && forall n: nat | n > 0 :: InlineOne(fs, d, base, n) == Inline(fs, dirs, fs.ParentOf(path), n - 1)
  {
    TargetUnvisited(fs, d, base, visited);
  }

  lemma {:induction false} ExpandOneIsInline(fs: Files, d: Directive, base: Path, visited: set<Path>)
    requires ExpandOne(fs, d, base, visited).Ok?
    ensures InlineOne(fs, d, base, |fs.texts.Keys - visited|) == Some(ExpandOne(fs, d, base, visited).value)
    decreases |fs.texts.Keys - visited|, d
  {
    if d.name == "include" {
      var (path, dirs) := Target(fs, d, base, visited).value;
      IncludeUnfolds(fs, d, base, visited);
      Shrinks(fs, visited, path);
      ExpandIsInline(fs, dirs, fs.ParentOf(path), visited + {path});
    } else if d.block.Body? {
      ExpandIsInline(fs, d.block.dirs, base, visited);
    }
  }

  /** No visited file can be inlined one level below depth `n`. */
  ghost predicate Blocked(fs: Files, visited: set<Path>, n: nat) {
    n > 0 ==> forall v | v in visited :: InlineFile(fs, v, n - 1).None?
  }

  lemma {:induction false} LeastDepth(fs: Files, path: Path, n: nat) returns (m: nat)
    requires InlineFile(fs, path, n).Some?
    ensures m <= n && InlineFile(fs, path, m) == InlineFile(fs, path, n)
    ensures m > 0 ==> InlineFile(fs, path, m - 1).None?
  {
    m := n;
    if n > 0 && InlineFile(fs, path, n - 1).Some? {
      FileMoreDepth(fs, path, n - 1, n);
      m := LeastDepth(fs, path, n - 1);
    }
  }

  /** What can be inlined is expanded: the visited set rejects only what has no inlining. */
  lemma {:induction false} InlineIsExpanded(fs: Files, dirs: seq<Directive>, base: Path, visited: set<Path>, n: nat)
    requires Inline(fs, dirs, base, n).Some? && Blocked(fs, visited, n)
    ensures Expand(fs, dirs, base, visited) == Ok(Inline(fs, dirs, base, n).value)
    decreases n, dirs
  {
    if dirs != [] {
      InlineOneIsExpanded(fs, dirs[0], base, visited, n);
      InlineIsExpanded(fs, dirs[1..], base, visited, n);
    }
  }

  lemma {:induction false} InlineOneIsExpanded(fs: Files, d: Directive, base: Path, visited: set<Path>, n: nat)
    requires InlineOne(fs, d, base, n).Some? && Blocked(fs, visited, n)
    ensures ExpandOne(fs, d, base, visited) == Ok(InlineOne(fs, d, base, n).value)
    decreases n, d
  {
    if d.name == "include" {
      var (path, dirs) := Target(fs, d, base, {}).value;
      var m := LeastDepth(fs, path, n - 1);
      if m > 0 {
        forall v | v in visited ensures InlineFile(fs, v, m - 1).None? {
          if InlineFile(fs, v, m - 1).Some? { FileMoreDepth(fs, v, m - 1, n - 1); }
        }
      }
      InlineIsExpanded(fs, dirs, fs.ParentOf(path), visited + {path}, m);
    } else if d.block.Body? {
      InlineIsExpanded(fs, d.block.dirs, base, visited, n);
    }
  }

  /** Loading succeeds exactly when the root file has a finite recursive inlining, and the result is
      that inlining. */
  lemma LoadIffInlinable(fs: Files, root: Path)
    ensures Load(fs, root).Ok? <==> exists n: nat :: InlineFile(fs, root, n).Some?
    ensures forall n: nat | InlineFile(fs, root, n).Some? :: Load(fs, root) == Ok(InlineFile(fs, root, n).value)
  {
    if Load(fs, root).Ok? {
      var dirs := Content(fs.texts[root]).value;
      ExpandIsInline(fs, dirs, fs.ParentOf(root), {root});
      assert InlineFile(fs, root, |fs.texts.Keys - {root}|).Some?;
    }
    forall n: nat | InlineFile(fs, root, n).Some? ensures Load(fs, root) == Ok(InlineFile(fs, root, n).value) {
      var m := LeastDepth(fs, root, n);
      InlineIsExpanded(fs, Content(fs.texts[root]).value, fs.ParentOf(root), {root}, m);
    }
  }

  // ----- Acyclic include graphs -----

  /** Every include at any depth of `dirs` leads to a readable, well-formed file of rank below
      `bound`. */
  ghost predicate LeadsBelow(fs: Files, dirs: seq<Directive>, base: Path, rank: map<Path, nat>, bound: nat) {
    dirs == [] || (LeadsBelowOne(fs, dirs[0], base, rank, bound) && LeadsBelow(fs, dirs[1..], base, rank, bound))
  }

  ghost predicate LeadsBelowOne(fs: Files, d: Directive, base: Path, rank: map<Path, nat>, bound: nat) {
    if d.name == "include" then
      var t := Target(fs, d, base, {});
      t.Ok? && t.value.0 in rank && rank[t.value.0] < bound
    else d.block.Body? ==> LeadsBelow(fs, d.block.dirs, base, rank, bound)
  }

  /** The include graph is acyclic and resolvable: files can be ranked so that every file includes
      only files of lower rank. */
  ghost predicate Ranked(fs: Files, rank: map<Path, nat>) {
    forall p | p in rank ::
      && p in fs.texts && Content(fs.texts[p]).Ok?
      && LeadsBelow(fs, Content(fs.texts[p]).value, fs.ParentOf(p), rank, rank[p])
  }

  lemma {:induction false} RankedInlines(fs: Files, dirs: seq<Directive>, base: Path, rank: map<Path, nat>, n: nat)
    requires Ranked(fs, rank) && LeadsBelow(fs, dirs, base, rank, n)
    ensures Inline(fs, dirs, base, n).Some?
    decreases n, dirs
  {
    if dirs != [] {
      RankedInlinesOne(fs, dirs[0], base, rank, n);
      RankedInlines(fs, dirs[1..], base, rank, n);
    }
  }

  lemma {:induction false} RankedInlinesOne(fs: Files, d: Directive, base: Path, rank: map<Path, nat>, n: nat)
    requires Ranked(fs, rank) && LeadsBelowOne(fs, d, base, rank, n)
    ensures InlineOne(fs, d, base, n).Some?
    decreases n, d
  {
    if d.name == "include" {
      var (path, dirs) := Target(fs, d, base, {}).value;
      RankedInlines(fs, dirs, fs.ParentOf(path), rank, rank[path]);
      MoreDepth(fs, dirs, fs.ParentOf(path), rank[path], n - 1);
    } else if d.block.Body? {
      RankedInlines(fs, d.block.dirs, base, rank, n);
    }
  }

  /** Loading succeeds on every acyclic, resolvable include graph, also when a file is included on
      several branches. */
  lemma AcyclicLoads(fs: Files, rank: map<Path, nat>, root: Path)
    requires Ranked(fs, rank) && root in rank
    ensures Load(fs, root).Ok?
  {
    RankedInlines(fs, Content(fs.texts[root]).value, fs.ParentOf(root), rank, rank[root]);
    assert InlineFile(fs, root, rank[root]).Some?;
    LoadIffInlinable(fs, root);
  }

  ghost predicate Inlinable(fs: Files, path: Path) {
    exists n: nat :: InlineFile(fs, path, n).Some?
  }

  /** The least depth at which a file can be inlined, searched downwards from `n`. */
  ghost function DepthBelow(fs: Files, path: Path, n: nat): (m: nat)
    requires InlineFile(fs, path, n).Some?
    ensures InlineFile(fs, path, m).Some? && (m > 0 ==> InlineFile(fs, path, m - 1).None?)
  {
    if n > 0 && InlineFile(fs, path, n - 1).Some? then DepthBelow(fs, path, n - 1) else n
  }

  ghost function Depth(fs: Files, path: Path): (m: nat)
    requires Inlinable(fs, path)
    ensures InlineFile(fs, path, m).Some? && (m > 0 ==> InlineFile(fs, path, m - 1).None?)
  {
    var n: nat :| InlineFile(fs, path, n).Some?;
    DepthBelow(fs, path, n)
  }

  lemma DepthIsLeast(fs: Files, path: Path, n: nat)
    requires InlineFile(fs, path, n).Some?
    ensures Inlinable(fs, path) && Depth(fs, path) <= n
  {
    var m := Depth(fs, path);
    if m > n {
      FileMoreDepth(fs, path, n, m - 1);
    }
  }

  /** Every file that can be inlined, ranked by its least depth. */
  ghost function Depths(fs: Files): map<Path, nat> {
    map p | p in fs.texts && Inlinable(fs, p) :: Depth(fs, p)
  }

  lemma {:induction false} InlineLeadsBelow(fs: Files, dirs: seq<Directive>, base: Path, n: nat)
    requires Inline(fs, dirs, base, n).Some?
    ensures LeadsBelow(fs, dirs, base, Depths(fs), n)
    decreases n, dirs
  {
    if dirs != [] {
      InlineLeadsBelowOne(fs, dirs[0], base, n);
      InlineLeadsBelow(fs, dirs[1..], base, n);
    }
  }

  lemma {:induction false} InlineLeadsBelowOne(fs: Files, d: Directive, base: Path, n: nat)
    requires InlineOne(fs, d, base, n).Some?
    ensures LeadsBelowOne(fs, d, base, Depths(fs), n)
    decreases n, d
  {
    if d.name == "include" {
      var path := Target(fs, d, base, {}).value.0;
      TargetUnvisited(fs, d, base, {});
      DepthIsLeast(fs, path, n - 1);
    } else if d.block.Body? {
      InlineLeadsBelow(fs, d.block.dirs, base, n);
    }
  }

  lemma DepthsRank(fs: Files)
    ensures Ranked(fs, Depths(fs))
  {
    forall p | p in Depths(fs)
      ensures Content(fs.texts[p]).Ok?
      ensures LeadsBelow(fs, Content(fs.texts[p]).value, fs.ParentOf(p), Depths(fs), Depths(fs)[p])
    {
      InlineLeadsBelow(fs, Content(fs.texts[p]).value, fs.ParentOf(p), Depth(fs, p));
    }
  }

  /** Loading succeeds exactly when everything that the root includes, at any remove, can be ranked:
      the include graph below it is acyclic and resolvable. */
  lemma LoadsIffAcyclic(fs: Files, root: Path)
    ensures Load(fs, root).Ok? <==> exists rank :: Ranked(fs, rank) && root in rank
  {
    LoadIffInlinable(fs, root);
    if Load(fs, root).Ok? {
      DepthsRank(fs);
      assert root in Depths(fs);
    }
    if rank :| Ranked(fs, rank) && root in rank {
      AcyclicLoads(fs, rank, root);
    }
  }

  // ----- One include, spelled out -----

  /** The tokens of a text parse to these directives. */
  ghost predicate Reads(text: string, dirs: seq<Directive>) {
    && Syntax.Lexes(text, 1).Ok?
    && Syntax.Parses(Syntax.Lexes(text, 1).value, false) == Ok((dirs, []))
  }

  /** An include of its first argument, resolved from the directory it is read in: if the file has
      these directives, they are expanded in the directory of that file, "." if it has none. */
  lemma IncludeStep(fs: Files, d: Directive, base: Path, visited: set<Path>, path: Path, dirs: seq<Directive>)
    requires d.name == "include" && d.args != [] && (base, d.args[0]) in fs.resolve
    requires path == fs.resolve[(base, d.args[0])] && path !in visited && path in fs.texts
    requires Reads(fs.texts[path], dirs)
    ensures ExpandOne(fs, d, base, visited) ==
            Expand(fs, dirs, if path in fs.parent then fs.parent[path] else ".", visited + {path})
  {
  }

  /** The ways in which an include fails, in the order of the checks. */
  lemma IncludeFails(fs: Files, d: Directive, base: Path, visited: set<Path>)
    requires d.name == "include"
    ensures d.args == [] ==> ExpandOne(fs, d, base, visited) == Err(NeedsPath(d.line))
    ensures d.args != [] && (base, d.args[0]) !in fs.resolve ==>
              ExpandOne(fs, d, base, visited) == Err(Unresolved(d.line, d.args[0]))
    ensures d.args != [] && (base, d.args[0]) in fs.resolve ==>
              var path := fs.resolve[(base, d.args[0])];
              && (path in visited ==> ExpandOne(fs, d, base, visited) == Err(Cycle(d.line, path)))
              && (path !in visited && path !in fs.texts ==>
                    ExpandOne(fs, d, base, visited) == Err(Unreadable(d.line, path)))
              && (path !in visited && path in fs.texts && Syntax.Lexes(fs.texts[path], 1).Err? ==>
                    ExpandOne(fs, d, base, visited) == Err(BadSyntax(Syntax.Lexes(fs.texts[path], 1).error)))
  {
  }

  /** A root that includes a file that includes another: each argument is resolved from the directory
      of the file it stands in. */
  lemma NestedInclude(fs: Files, root: Path, p: Path, q: Path, d: Directive, e: Directive, leaf: Directive)
    requires root in fs.texts && p in fs.texts && q in fs.texts && root != p && q != root && q != p
    requires root in fs.parent && p in fs.parent
    requires d.name == "include" && e.name == "include" && leaf.name != "include" && leaf.block.NoBlock?
    requires d.args != [] && e.args != []
    requires fs.resolve.Items >= {((fs.parent[root], d.args[0]), p), ((fs.parent[p], e.args[0]), q)}
    requires Reads(fs.texts[root], [d]) && Reads(fs.texts[p], [e]) && Reads(fs.texts[q], [leaf])
    ensures Load(fs, root) == Ok([leaf])
  {
    assert ((fs.parent[root], d.args[0]), p) in fs.resolve.Items;
    assert ((fs.parent[p], e.args[0]), q) in fs.resolve.Items;
    var dirQ := if q in fs.parent then fs.parent[q] else ".";
    ExpandSingle(fs, leaf, dirQ, {root} + {p} + {q});
    IncludeStep(fs, e, fs.parent[p], {root} + {p}, q, [leaf]);
    ExpandSingle(fs, e, fs.parent[p], {root} + {p});
    IncludeStep(fs, d, fs.parent[root], {root}, p, [e]);
    ExpandSingle(fs, d, fs.parent[root], {root});
  }

  lemma ExpandSingle(fs: Files, d: Directive, base: Path, visited: set<Path>)
    ensures Expand(fs, [d], base, visited) == ExpandOne(fs, d, base, visited)
  {
    var one := ExpandOne(fs, d, base, visited);
    assert [d][1..] == [] && Expand(fs, [], base, visited) == Ok([]);
    if one.Ok? { assert one.value + [] == one.value; }
  }

  // ----- No include is left -----

  ghost predicate NoInclude(dirs: seq<Directive>) {
    dirs == [] || (NoIncludeOne(dirs[0]) && NoInclude(dirs[1..]))
  }

  ghost predicate NoIncludeOne(d: Directive) {
    d.name != "include" && (d.block.Body? ==> NoInclude(d.block.dirs))
  }

  lemma {:induction false} NoIncludeConcat(a: seq<Directive>, b: seq<Directive>)
    requires NoInclude(a) && NoInclude(b)
    ensures NoInclude(a + b)
  {
    if a == [] {
      assert a + b == b;
    } else {
      NoIncludeConcat(a[1..], b);
      assert (a + b)[1..] == a[1..] + b;
    }
  }

  /** A successful expansion leaves no `include` at any depth. */
  lemma {:induction false} ExpansionHasNoInclude(fs: Files, dirs: seq<Directive>, base: Path, visited: set<Path>)
    requires Expand(fs, dirs, base, visited).Ok?
    ensures NoInclude(Expand(fs, dirs, base, visited).value)
    decreases |fs.texts.Keys - visited|, dirs
  {
    if dirs != [] {
      OneHasNoInclude(fs, dirs[0], base, visited);
      ExpansionHasNoInclude(fs, dirs[1..], base, visited);
      NoIncludeConcat(ExpandOne(fs, dirs[0], base, visited).value, Expand(fs, dirs[1..], base, visited).value);
    }
  }

  lemma {:induction false} OneHasNoInclude(fs: Files, d: Directive, base: Path, visited: set<Path>)
    requires ExpandOne(fs, d, base, visited).Ok?
    ensures NoInclude(ExpandOne(fs, d, base, visited).value)
    decreases |fs.texts.Keys - visited|, d
  {
    if d.name == "include" {
      var (path, dirs) := Target(fs, d, base, visited).value;
      Shrinks(fs, visited, path);
      ExpansionHasNoInclude(fs, dirs, fs.ParentOf(path), visited + {path});
    } else if d.block.Body? {
      var inner := Expand(fs, d.block.dirs, base, visited).value;
      ExpansionHasNoInclude(fs, d.block.dirs, base, visited);
      NoIncludeSingle(d.(block := Syntax.Body(inner)));
    } else {
      NoIncludeSingle(d);
    }
  }

  lemma NoIncludeSingle(d: Directive)
    requires NoIncludeOne(d)
    ensures NoInclude([d])
  {
    assert [d][1..] == [];
  }
}
