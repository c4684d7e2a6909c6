/** The tree of profile groups: '/'-separated paths inserted one by one into sorted sibling lists. */
module GroupTree {
  import opened Basics
  import opened CStrings

  datatype Tree = Node(name: string, group: string, kids: seq<Tree>)

  // ---------------------------------------------------------------- paths

  /** The path an insertion follows. A trailing empty segment is not inserted; any other one is. */
  function Segments(group: string): seq<string>
    decreases |group|
  {
    if group == "" then []
    else
      var k := IndexOf(group, '/');
      if k == |group| then [group] else [group[..k]] + Segments(group[k + 1..])
  }

  ghost predicate SlashFree(path: seq<string>) {
    forall i :: 0 <= i < |path| ==> '/' !in path[i]
  }

  function Join(path: seq<string>): string
    requires path != []
  {
    if |path| == 1 then path[0] else path[0] + "/" + Join(path[1..])
  }

  /** All the segments of a string, empty ones included. */
  function Split(group: string): (path: seq<string>)
    ensures path != []
    decreases |group|
  {
    var k := IndexOf(group, '/');
    if k == |group| then [group] else [group[..k]] + Split(group[k + 1..])
  }

  lemma {:induction false} SplitJoin(path: seq<string>)
    requires path != [] && SlashFree(path)
    ensures Split(Join(path)) == path
  {
    var g := Join(path);
    var k := IndexOf(g, '/');
    if |path| == 1 {
      assert k == |g|;
    } else {
      var n := |path[0]|;
      assert g[n] == '/' && g[..n] == path[0] && g[n + 1..] == Join(path[1..]);
      assert k == n;
      SplitJoin(path[1..]);
    }
  }

  lemma {:induction false} JoinSplit(group: string)
    ensures Join(Split(group)) == group && SlashFree(Split(group))
    decreases |group|
  {
    var k := IndexOf(group, '/');
    if k < |group| {
      JoinSplit(group[k + 1..]);
      var rest := Split(group[k + 1..]);
      assert Split(group)[1..] == rest;
      assert group == group[..k] + "/" + group[k + 1..];
    }
  }

  /** An insertion follows all the segments of the string but a trailing empty one. */
  lemma {:induction false} SegmentsOfSplit(group: string)
    ensures var path := Split(group);
      Segments(group) == if path[|path| - 1] == "" then path[..|path| - 1] else path
    ensures Split(group)[|Split(group)| - 1] == "" <==> group == "" || EndsWith(group, '/')
    decreases |group|
  {
    var k := IndexOf(group, '/');
    if group != "" && k < |group| {
      SegmentsOfSplit(group[k + 1..]);
      var rest := Split(group[k + 1..]);
      assert Split(group) == [group[..k]] + rest;
      if rest[|rest| - 1] == "" {
        assert Split(group)[..|rest|] == [group[..k]] + rest[..|rest| - 1];
      }
    }
  }

  // ---------------------------------------------------------------- insertion, as a function

  function ChildGroup(at: Option<string>, name: string): string {
    if at.None? then name else at.value + "/" + name
  }

  /** The sibling loop: the first child whose name is not before the given one. */
  function Scan(kids: seq<Tree>, name: string): (i: nat)
    ensures i <= |kids|
    ensures i < |kids| ==> !Less(kids[i].name, name)
    ensures forall j :: 0 <= j < i ==> Less(kids[j].name, name)
  {
    if kids == [] || !Less(kids[0].name, name) then 0 else 1 + Scan(kids[1..], name)
  }

  /** Inserting a path below a node whose group string is `at` (None for the root, which has no data). */
  function Add(kids: seq<Tree>, at: Option<string>, path: seq<string>): seq<Tree>
    decreases |path|
  {
    if path == [] then kids
    else
      var i := Scan(kids, path[0]);
      if i < |kids| && kids[i].name == path[0] then
        kids[i := kids[i].(kids := Add(kids[i].kids, Some(kids[i].group), path[1..]))]
      else
        var group := ChildGroup(at, path[0]);
        kids[..i] + [Node(path[0], group, Add([], Some(group), path[1..]))] + kids[i..]
  }

  function Build(groups: seq<string>): seq<Tree> {
    if groups == [] then [] else Add(Build(groups[..|groups| - 1]), None, Segments(groups[|groups| - 1]))
  }

  // ---------------------------------------------------------------- what the tree is

  ghost predicate Sorted(kids: seq<Tree>) {
    forall i, j :: 0 <= i < j < |kids| ==> Less(kids[i].name, kids[j].name)
  }

  /** Every sibling list is strictly sorted and every group string is the parent's plus '/' plus the name. */
  ghost predicate Canonical(kids: seq<Tree>, at: Option<string>) {
    && Sorted(kids)
    && forall i :: 0 <= i < |kids| ==>
         kids[i].group == ChildGroup(at, kids[i].name) && Canonical(kids[i].kids, Some(kids[i].group))
  }

  ghost predicate HasPath(kids: seq<Tree>, path: seq<string>)
    decreases |path|
  {
    path == [] || exists i :: 0 <= i < |kids| && kids[i].name == path[0] && HasPath(kids[i].kids, path[1..])
  }

  lemma {:induction false} AddKeepsCanonical(kids: seq<Tree>, at: Option<string>, path: seq<string>)
    requires Canonical(kids, at)
    ensures Canonical(Add(kids, at, path), at)
    decreases |path|
  {
    if path != [] {
      var i := Scan(kids, path[0]);
      if i < |kids| && kids[i].name == path[0] {
        AddKeepsCanonical(kids[i].kids, Some(kids[i].group), path[1..]);
      } else {
        var group := ChildGroup(at, path[0]);
        AddKeepsCanonical([], Some(group), path[1..]);
        InsertSorted(kids, i, Node(path[0], group, Add([], Some(group), path[1..])));
      }
    }
  }

  lemma InsertSorted(kids: seq<Tree>, i: nat, node: Tree)
    requires Sorted(kids) && i == Scan(kids, node.name) && (i < |kids| ==> kids[i].name != node.name)
    ensures Sorted(kids[..i] + [node] + kids[i..])
  {
    forall k | i <= k < |kids| ensures Less(node.name, kids[k].name) {
      LessIsTotal(kids[i].name, node.name);
      if i < k {
        LessIsTransitive(node.name, kids[i].name, kids[k].name);
      }
    }
    InsertBetween(kids, i, node);
  }

  lemma InsertBetween(kids: seq<Tree>, i: nat, node: Tree)
    requires Sorted(kids) && i <= |kids|
    requires forall j :: 0 <= j < i ==> Less(kids[j].name, node.name)
    requires forall k :: i <= k < |kids| ==> Less(node.name, kids[k].name)
    ensures Sorted(kids[..i] + [node] + kids[i..])
  {
    var all := kids[..i] + [node] + kids[i..];
    assert forall j :: 0 <= j < |all| ==> all[j] == if j < i then kids[j] else if j == i then node else kids[j - 1];
  }

  /** Under its name, a sorted sibling list has at most one child. */
  lemma HasPathThrough(kids: seq<Tree>, i: nat, path: seq<string>)
    requires Sorted(kids) && i < |kids|
    ensures HasPath(kids, [kids[i].name] + path) <==> HasPath(kids[i].kids, path)
  {
    var p := [kids[i].name] + path;
    assert p[1..] == path;
    forall j | 0 <= j < |kids| && kids[j].name == kids[i].name ensures j == i {
      LessIsTotal(kids[i].name, kids[j].name);
    }
  }

  /** A child of the given name is found by the sibling loop. */
  lemma ScanFinds(kids: seq<Tree>, name: string, j: nat)
    requires Sorted(kids) && j < |kids| && kids[j].name == name
    ensures Scan(kids, name) == j
  {
    LessIsTotal(name, name);
  }

  lemma PrefixSplit(p: seq<string>, path: seq<string>)
    requires p != [] && path != []
    ensures p <= path <==> p[0] == path[0] && p[1..] <= path[1..]
  {
    if p[0] == path[0] && p[1..] <= path[1..] {
      forall i | 0 <= i < |p| ensures p[i] == path[i] {
        if i > 0 {
          assert p[1..][i - 1] == path[1..][i - 1];
        }
      }
    }
  }

  /** Inserting a path adds exactly the prefixes of that path. */
  lemma {:induction false} AddAddsPrefixes(kids: seq<Tree>, at: Option<string>, path: seq<string>, p: seq<string>)
    requires Canonical(kids, at)
    ensures HasPath(Add(kids, at, path), p) <==> HasPath(kids, p) || p <= path
    decreases |path|
  {
    if path != [] && p != [] {
      var all := Add(kids, at, path);
      AddKeepsCanonical(kids, at, path);
      PrefixSplit(p, path);
      assert p == [p[0]] + p[1..];
      var i := Scan(kids, path[0]);
      if i < |kids| && kids[i].name == path[0] {
        AddAddsPrefixes(kids[i].kids, Some(kids[i].group), path[1..], p[1..]);
        if p[0] == path[0] {
          HasPathThrough(kids, i, p[1..]);
          HasPathThrough(all, i, p[1..]);
        } else {
          HasPathElsewhere(kids, all, p);
        }
      } else {
        AddAddsPrefixes([], Some(ChildGroup(at, path[0])), path[1..], p[1..]);
        assert HasPath([], p[1..]) ==> p[1..] == [];
        if p[0] == path[0] {
          HasPathThrough(all, i, p[1..]);
          forall j | 0 <= j < |kids| ensures kids[j].name != path[0] {
            if kids[j].name == path[0] {
              ScanFinds(kids, path[0], j);
            }
          }
        } else {
          HasPathAround(kids, i, all[i], p);
        }
      }
    }
  }

  lemma HasPathElsewhere(kids: seq<Tree>, all: seq<Tree>, p: seq<string>)
    requires p != [] && |all| == |kids|
    requires forall j :: 0 <= j < |kids| ==> all[j].name == kids[j].name && (kids[j].name == p[0] ==> all[j] == kids[j])
    ensures HasPath(all, p) <==> HasPath(kids, p)
  {
  }

  lemma HasPathAround(kids: seq<Tree>, i: nat, node: Tree, p: seq<string>)
    requires p != [] && i <= |kids| && node.name != p[0]
    ensures HasPath(kids[..i] + [node] + kids[i..], p) <==> HasPath(kids, p)
  {
    var all := kids[..i] + [node] + kids[i..];
    assert forall j :: 0 <= j < |kids| ==> kids[j] == all[if j < i then j else j + 1];
  }

  /** A canonical tree is determined by its set of paths. */
  lemma {:induction false} SamePathsSameTree(a: seq<Tree>, b: seq<Tree>, at: Option<string>)
    requires Canonical(a, at) && Canonical(b, at)
    requires forall p :: HasPath(a, p) <==> HasPath(b, p)
    ensures a == b
  {
    if a != [] && b != [] {
      SameHead(a, b);
      SameHead(b, a);
      LessIsTotal(a[0].name, b[0].name);
      forall p ensures HasPath(a[0].kids, p) <==> HasPath(b[0].kids, p) {
        HasPathThrough(a, 0, p);
        HasPathThrough(b, 0, p);
      }
      SamePathsSameTree(a[0].kids, b[0].kids, Some(a[0].group));
      forall p ensures HasPath(a[1..], p) <==> HasPath(b[1..], p) {
        TailPaths(a, p);
        TailPaths(b, p);
      }
      SamePathsSameTree(a[1..], b[1..], at);
      assert a == [a[0]] + a[1..] && b == [b[0]] + b[1..];
    } else if a != [] {
      HasPathThrough(a, 0, []);
    } else if b != [] {
      HasPathThrough(b, 0, []);
    }
  }

  lemma SameHead(a: seq<Tree>, b: seq<Tree>)
    requires Sorted(a) && Sorted(b) && a != [] && b != []
    requires forall p :: HasPath(a, p) ==> HasPath(b, p)
    ensures !Less(a[0].name, b[0].name)
  {
    HasPathThrough(a, 0, []);
    assert HasPath(b, [a[0].name]);
    var j :| 0 <= j < |b| && b[j].name == a[0].name;
    LessIsTotal(a[0].name, b[0].name);
  }

  lemma TailPaths(a: seq<Tree>, p: seq<string>)
    requires Sorted(a) && a != []
    ensures HasPath(a[1..], p) <==> HasPath(a, p) && (p == [] || p[0] != a[0].name)
  {
    if p != [] {
      if HasPath(a[1..], p) {
        var i :| 0 <= i < |a[1..]| && a[1..][i].name == p[0] && HasPath(a[1..][i].kids, p[1..]);
        assert a[i + 1].name == p[0];
        LessIsTotal(a[0].name, p[0]);
      }
      if HasPath(a, p) && p[0] != a[0].name {
        var i :| 0 <= i < |a| && a[i].name == p[0] && HasPath(a[i].kids, p[1..]);
        assert a[1..][i - 1] == a[i];
      }
    }
  }

  // ---------------------------------------------------------------- main results

  /** After inserting any list of groups the tree is canonical, and its nodes are exactly the prefixes of the
      inserted paths. */
  lemma {:induction false} TreeOfGroups(groups: seq<string>, p: seq<string>)
    ensures Canonical(Build(groups), None)
    ensures HasPath(Build(groups), p) <==> p == [] || exists g :: g in groups && p <= Segments(g)
  {
    if groups != [] {
      var before := groups[..|groups| - 1];
      var g := groups[|groups| - 1];
      TreeOfGroups(before, p);
      AddKeepsCanonical(Build(before), None, Segments(g));
      AddAddsPrefixes(Build(before), None, Segments(g), p);
      if h :| h in groups && p <= Segments(h) {
        assert h in before || h == g;
      }
      assert g in groups;
      assert HasPath(Build(groups), p) <==> HasPath(Build(before), p) || p <= Segments(g);
    }
  }

  /** Any order and any repetition of the same insertions gives the same tree. */
  lemma OrderDoesNotMatter(groups: seq<string>, others: seq<string>)
    requires forall g :: g in groups <==> g in others
    ensures Build(groups) == Build(others)
  {
    TreeOfGroups(groups, []);
    TreeOfGroups(others, []);
    forall p ensures HasPath(Build(groups), p) <==> HasPath(Build(others), p) {
      TreeOfGroups(groups, p);
      TreeOfGroups(others, p);
    }
    SamePathsSameTree(Build(groups), Build(others), None);
  }

  ghost function At(kids: seq<Tree>, path: seq<string>): Tree
    requires path != [] && HasPath(kids, path)
    decreases |path|
  {
    var i :| 0 <= i < |kids| && kids[i].name == path[0] && HasPath(kids[i].kids, path[1..]);
    if |path| == 1 then kids[i] else At(kids[i].kids, path[1..])
  }

  /** The group string of a node spells its path. */
  lemma {:induction false} GroupSpellsPath(kids: seq<Tree>, at: Option<string>, path: seq<string>)
    requires Canonical(kids, at) && path != [] && HasPath(kids, path)
    ensures At(kids, path).group == ChildGroup(at, Join(path))
    decreases |path|
  {
    var i :| 0 <= i < |kids| && kids[i].name == path[0] && HasPath(kids[i].kids, path[1..])
             && At(kids, path) == if |path| == 1 then kids[i] else At(kids[i].kids, path[1..]);
    if |path| > 1 {
      GroupSpellsPath(kids[i].kids, Some(kids[i].group), path[1..]);
      JoinBelow(at, path);
    }
  }

  lemma JoinBelow(at: Option<string>, path: seq<string>)
    requires |path| > 1
    ensures ChildGroup(Some(ChildGroup(at, path[0])), Join(path[1..])) == ChildGroup(at, Join(path))
  {
  }
}
