/** Location routing of src/app.rs: `build` sorts the locations of a server into three lists, and
    `route` scans them.  Locations are named by their position in the declaration; paths are byte
    strings; the regex engine is an arbitrary predicate. */
module Routing {
  import opened Common

  datatype Kind = Exact | Regex(pattern: string, caseInsensitive: bool) | Prefix

  datatype Location = Location(kind: Kind, path: string)

  type Engine = (string, bool, string) -> bool

  datatype Server = Server(exact: seq<nat>, regex: seq<nat>, prefix: seq<nat>)

  predicate Matches(re: Engine, l: Location, path: string) {
    match l.kind
    case Exact => l.path == path
    case Regex(pattern, ci) => re(pattern, ci, path)
    case Prefix => l.path == "/" || l.path <= path
  }

  // ----- Building the lists -----

  ghost predicate InBounds(locs: seq<Location>, xs: seq<nat>) {
    forall i | 0 <= i < |xs| :: xs[i] < |locs|
  }

  /** The order of the sorted prefix list: longer paths first, declaration order among equals. */
  predicate Before(locs: seq<Location>, a: nat, b: nat)
    requires a < |locs| && b < |locs|
  {
    |locs[a].path| > |locs[b].path| || (|locs[a].path| == |locs[b].path| && a < b)
  }

  /** Stable insertion: ahead of every element that is not longer. */
  function InsertByLength(locs: seq<Location>, x: nat, xs: seq<nat>): (ys: seq<nat>)
    requires x < |locs| && forall i | 0 <= i < |xs| :: xs[i] < |locs|
    ensures forall i | 0 <= i < |ys| :: ys[i] < |locs|
    ensures multiset(ys) == multiset{x} + multiset(xs)
  {
    if xs == [] || |locs[xs[0]].path| <= |locs[x].path| then [x] + xs
    else
      assert xs == [xs[0]] + xs[1..];
      [xs[0]] + InsertByLength(locs, x, xs[1..])
  }

  /** The stable sort by descending path length. */
  function SortByLength(locs: seq<Location>, xs: seq<nat>): (ys: seq<nat>)
    requires forall i | 0 <= i < |xs| :: xs[i] < |locs|
    ensures forall i | 0 <= i < |ys| :: ys[i] < |locs|
    ensures multiset(ys) == multiset(xs)
  {
    if xs == [] then []
    else
      assert xs == [xs[0]] + xs[1..];
      InsertByLength(locs, xs[0], SortByLength(locs, xs[1..]))
  }

  ghost predicate Ascending(xs: seq<nat>) {
    forall i, j | 0 <= i < j < |xs| :: xs[i] < xs[j]
  }

  ghost predicate Ordered(locs: seq<Location>, xs: seq<nat>) {
    && InBounds(locs, xs)
    && forall i, j | 0 <= i < j < |xs| :: Before(locs, xs[i], xs[j])
  }

  lemma SameMembers(xs: seq<nat>, ys: seq<nat>, x: nat)
    requires multiset(xs) == multiset(ys)
    ensures x in xs <==> x in ys
  {
    assert x in multiset(xs) <==> x in xs;
    assert x in multiset(ys) <==> x in ys;
  }

  lemma {:induction false} InsertOrdered(locs: seq<Location>, x: nat, xs: seq<nat>)
    requires x < |locs| && Ordered(locs, xs) && forall i | 0 <= i < |xs| :: x < xs[i]
    ensures Ordered(locs, InsertByLength(locs, x, xs))
  {
    if xs != [] && |locs[xs[0]].path| > |locs[x].path| {
      InsertOrdered(locs, x, xs[1..]);
      var ys := InsertByLength(locs, x, xs[1..]);
      forall i | 0 <= i < |ys| ensures Before(locs, xs[0], ys[i]) {
        assert ys[i] in multiset(ys);
        assert ys[i] == x || ys[i] in xs[1..];
      }
    }
  }

  /** Sorting a list in declaration order gives the longest paths first and keeps declaration order
      among paths of equal length. */
  lemma {:induction false} SortOrdered(locs: seq<Location>, xs: seq<nat>)
    requires InBounds(locs, xs) && Ascending(xs)
    ensures Ordered(locs, SortByLength(locs, xs))
  {
    if xs != [] {
      SortOrdered(locs, xs[1..]);
      var ys := SortByLength(locs, xs[1..]);
      forall i | 0 <= i < |ys| ensures xs[0] < ys[i] {
        SameMembers(ys, xs[1..], ys[i]);
      }
      InsertOrdered(locs, xs[0], ys);
    }
  }

  /** Positions below `n` that hold a location of the class `c` (0 exact, 1 regex, 2 prefix). */
  function Class(k: Kind): nat { match k case Exact => 0 case Regex(_, _) => 1 case Prefix => 2 }

  ghost function Declared(locs: seq<Location>, c: nat, n: nat): (xs: seq<nat>)
    requires n <= |locs|
    ensures InBounds(locs, xs)
  {
    if n == 0 then []
    else Declared(locs, c, n - 1) + if Class(locs[n - 1].kind) == c then [n - 1] else []
  }

  lemma {:induction false} DeclaredMember(locs: seq<Location>, c: nat, n: nat, i: nat)
    requires n <= |locs|
    ensures i in Declared(locs, c, n) <==> i < n && Class(locs[i].kind) == c
  {
    if n > 0 {
      DeclaredMember(locs, c, n - 1, i);
    }
  }

  lemma {:induction false} DeclaredAscends(locs: seq<Location>, c: nat, n: nat)
    requires n <= |locs|
    ensures Ascending(Declared(locs, c, n))
  {
    if n > 0 {
      DeclaredAscends(locs, c, n - 1);
      var xs := Declared(locs, c, n - 1);
      forall i | 0 <= i < |xs| ensures xs[i] < n - 1 {
        DeclaredMember(locs, c, n - 1, xs[i]);
      }
    }
  }

  method Build(locs: seq<Location>) returns (s: Server)
    ensures s == Built(locs)
  {
    var exact, regex, prefix := [], [], [];
    for i := 0 to |locs|
      invariant exact == Declared(locs, 0, i)
      invariant regex == Declared(locs, 1, i)
      invariant prefix == Declared(locs, 2, i)
    {
      match locs[i].kind
      case Exact => exact := exact + [i];
      case Regex(_, _) => regex := regex + [i];
      case Prefix => prefix := prefix + [i];
    }
    s := Server(exact, regex, SortByLength(locs, prefix));
  }

  ghost function Built(locs: seq<Location>): Server {
    Server(Declared(locs, 0, |locs|), Declared(locs, 1, |locs|), SortByLength(locs, Declared(locs, 2, |locs|)))
  }

  // ----- Routing -----

  /** Index of the first match in a list, or the length of the list. */
  method FirstMatch(re: Engine, locs: seq<Location>, xs: seq<nat>, path: string) returns (k: nat)
    requires InBounds(locs, xs)
    ensures k <= |xs| && forall j | 0 <= j < k :: !Matches(re, locs[xs[j]], path)
    ensures k < |xs| ==> Matches(re, locs[xs[k]], path)
  {
    for i := 0 to |xs|
      invariant forall j | 0 <= j < i :: !Matches(re, locs[xs[j]], path)
    {
      if Matches(re, locs[xs[i]], path) {
        return i;
      }
    }
    return |xs|;
  }

  /** Location `i` is preferred to location `j`: exact before regex before prefix; among exact and
      among regex locations the one declared first; among prefixes the longer, then the one declared
      first. */
  ghost predicate Preferred(locs: seq<Location>, i: nat, j: nat)
    requires i < |locs| && j < |locs|
  {
    var ci, cj := Class(locs[i].kind), Class(locs[j].kind);
    ci < cj || (ci == cj && (i == j || if ci == 2 then Before(locs, i, j) else i < j))
  }

  ghost predicate Routed(re: Engine, locs: seq<Location>, path: string, i: nat) {
    && i < |locs| && Matches(re, locs[i], path)
    && forall j | 0 <= j < |locs| && Matches(re, locs[j], path) :: Preferred(locs, i, j)
  }

  /** The best match is unique. */
  lemma RoutedUnique(re: Engine, locs: seq<Location>, path: string, i: nat, j: nat)
    requires Routed(re, locs, path, i) && Routed(re, locs, path, j)
    ensures i == j
  {
  }

  ghost predicate NoMatchBelow(re: Engine, locs: seq<Location>, path: string, c: nat) {
    forall j | 0 <= j < |locs| && Class(locs[j].kind) < c :: !Matches(re, locs[j], path)
  }

  /** The list holds the locations of one class in order of preference. */
  ghost predicate Lists(locs: seq<Location>, c: nat, xs: seq<nat>) {
    && InBounds(locs, xs)
    && (if c == 2 then Ordered(locs, xs) else Ascending(xs))
    && (forall i: nat :: i in xs <==> i < |locs| && Class(locs[i].kind) == c)
  }

  lemma BuiltLists(locs: seq<Location>)
    ensures var s := Built(locs); Lists(locs, 0, s.exact) && Lists(locs, 1, s.regex) && Lists(locs, 2, s.prefix)
  {
    var n, s := |locs|, Built(locs);
    DeclaredAscends(locs, 0, n);
    DeclaredAscends(locs, 1, n);
    DeclaredAscends(locs, 2, n);
    SortOrdered(locs, Declared(locs, 2, n));
    forall i: nat ensures i in s.exact <==> i < n && Class(locs[i].kind) == 0 { DeclaredMember(locs, 0, n, i); }
    forall i: nat ensures i in s.regex <==> i < n && Class(locs[i].kind) == 1 { DeclaredMember(locs, 1, n, i); }
    forall i: nat ensures i in s.prefix <==> i < n && Class(locs[i].kind) == 2 {
      DeclaredMember(locs, 2, n, i);
      SameMembers(s.prefix, Declared(locs, 2, n), i);
    }
  }

  lemma FirstIsBest(re: Engine, locs: seq<Location>, path: string, c: nat, xs: seq<nat>, k: nat)
    requires Lists(locs, c, xs) && NoMatchBelow(re, locs, path, c)
    requires k < |xs| && Matches(re, locs[xs[k]], path)
    requires forall j | 0 <= j < k :: !Matches(re, locs[xs[j]], path)
    ensures Routed(re, locs, path, xs[k])
  {
    assert xs[k] in xs;
    forall j: nat | j < |locs| && Matches(re, locs[j], path) ensures Preferred(locs, xs[k], j) {
      if Class(locs[j].kind) == c {
        assert j in xs;
        var m :| 0 <= m < |xs| && xs[m] == j;
        assert k <= m;
      }
    }
  }

  lemma NoneInList(re: Engine, locs: seq<Location>, path: string, c: nat, xs: seq<nat>)
    requires Lists(locs, c, xs) && NoMatchBelow(re, locs, path, c)
    requires forall j | 0 <= j < |xs| :: !Matches(re, locs[xs[j]], path)
    ensures NoMatchBelow(re, locs, path, c + 1)
  {
    forall j: nat | j < |locs| && Class(locs[j].kind) < c + 1 ensures !Matches(re, locs[j], path) {
      if Class(locs[j].kind) == c {
        assert j in xs;
        var m :| 0 <= m < |xs| && xs[m] == j;
      }
    }
  }

  /** Location `i` answers a path, spelled out: it is the first exact location with that very path;
      or there is none, and it is the first regex that matches; or there is none of these either, and
      it is the first of the longest prefixes ("/" being a prefix of every path). */
  ghost predicate Answers(re: Engine, locs: seq<Location>, path: string, i: nat)
    requires i < |locs|
  {
    var l := locs[i];
    match l.kind
    case Exact =>
      path == l.path && forall j | 0 <= j < i && locs[j].kind.Exact? :: path != locs[j].path
    case Regex(pattern, ci) =>
      && re(pattern, ci, path)
      && (forall j | 0 <= j < |locs| && locs[j].kind.Exact? :: path != locs[j].path)
      && (forall j | 0 <= j < i && locs[j].kind.Regex? ::
            !re(locs[j].kind.pattern, locs[j].kind.caseInsensitive, path))
    case Prefix =>
      && (l.path == "/" || l.path <= path)
      && (forall j | 0 <= j < |locs| && locs[j].kind.Exact? :: path != locs[j].path)
      && (forall j | 0 <= j < |locs| && locs[j].kind.Regex? ::
            !re(locs[j].kind.pattern, locs[j].kind.caseInsensitive, path))
      && (forall j | 0 <= j < |locs| && locs[j].kind.Prefix? && (locs[j].path == "/" || locs[j].path <= path) ::
            |locs[j].path| < |l.path| || (|locs[j].path| == |l.path| && i <= j))
  }

  lemma RoutedAnswers(re: Engine, locs: seq<Location>, path: string, i: nat)
    requires i < |locs|
    ensures Routed(re, locs, path, i) <==> Answers(re, locs, path, i)
  {
    if Routed(re, locs, path, i) {
      forall j | 0 <= j < |locs| && Matches(re, locs[j], path) ensures Preferred(locs, i, j) {
      }
    }
    if Answers(re, locs, path, i) {
      forall j | 0 <= j < |locs| && Matches(re, locs[j], path) ensures Preferred(locs, i, j) {
      }
    }
  }

  /** Nothing answers a path, spelled out. */
  ghost predicate Unanswered(re: Engine, locs: seq<Location>, path: string) {
    forall j | 0 <= j < |locs| ::
      match locs[j].kind
      case Exact => path != locs[j].path
      case Regex(pattern, ci) => !re(pattern, ci, path)
      case Prefix => locs[j].path != "/" && !(locs[j].path <= path)
  }

  /** For every declared list of locations, `route` on the lists made by `build` finds the best
      match, and finds nothing exactly when nothing matches. */
  method Route(re: Engine, locs: seq<Location>, s: Server, path: string) returns (r: Option<nat>)
    requires s == Built(locs)
    ensures r.Some? ==> r.value < |locs| && Answers(re, locs, path, r.value)
    ensures r.None? <==> Unanswered(re, locs, path)
  {
    r := FindRoute(re, locs, s, path);
    if r.Some? {
      RoutedAnswers(re, locs, path, r.value);
    }
  }

  /** The three scans. */
  method FindRoute(re: Engine, locs: seq<Location>, s: Server, path: string) returns (r: Option<nat>)
    requires s == Built(locs)
    ensures r.Some? ==> Routed(re, locs, path, r.value)
    ensures r.None? <==> forall j | 0 <= j < |locs| :: !Matches(re, locs[j], path)
  {
    BuiltLists(locs);
    var k := FirstMatch(re, locs, s.exact, path);
    if k < |s.exact| {
      FirstIsBest(re, locs, path, 0, s.exact, k);
      return Some(s.exact[k]);
    }
    NoneInList(re, locs, path, 0, s.exact);
    k := FirstMatch(re, locs, s.regex, path);
    if k < |s.regex| {
      FirstIsBest(re, locs, path, 1, s.regex, k);
      return Some(s.regex[k]);
    }
    NoneInList(re, locs, path, 1, s.regex);
    k := FirstMatch(re, locs, s.prefix, path);
    if k < |s.prefix| {
      FirstIsBest(re, locs, path, 2, s.prefix, k);
      return Some(s.prefix[k]);
    }
    NoneInList(re, locs, path, 2, s.prefix);
    return None;
  }
}
