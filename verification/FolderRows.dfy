/** The rows of the profile list: a folder row for every node of the group tree, profile rows after them. */
module FolderRows {
  import opened Basics
  import opened CStrings
  import opened GroupTree

  /** A row of the GtkTreeStore; a folder row has no file name. */
  datatype Row = Row(group: Option<string>, filename: Option<string>, kids: seq<Row>)

  /** A GtkTreePath, from the top level down. */
  type Path = seq<nat>

  predicate IsRow(rows: seq<Row>, path: Path) {
    path != [] && path[0] < |rows| && (|path| == 1 || IsRow(rows[path[0]].kids, path[1..]))
  }

  function RowAt(rows: seq<Row>, path: Path): Row
    requires IsRow(rows, path)
  {
    if |path| == 1 then rows[path[0]] else RowAt(rows[path[0]].kids, path[1..])
  }

  predicate IsParent(rows: seq<Row>, path: Path) {
    path == [] || IsRow(rows, path)
  }

  /** The rows below a row, or the top level. */
  function Below(rows: seq<Row>, path: Path): seq<Row>
    requires IsParent(rows, path)
  {
    if path == [] then rows else RowAt(rows, path).kids
  }

  /** gtk_tree_store_append */
  function AppendAt(rows: seq<Row>, parent: Path, row: Row): seq<Row>
    requires IsParent(rows, parent)
    decreases |parent|
  {
    if parent == [] then rows + [row]
    else
      var k := parent[0];
      rows[k := rows[k].(kids := AppendAt(rows[k].kids, parent[1..], row))]
  }

  lemma {:induction false} BelowBelow(rows: seq<Row>, path: Path, k: nat)
    requires IsParent(rows, path) && k < |Below(rows, path)|
    ensures IsRow(rows, path + [k]) && RowAt(rows, path + [k]) == Below(rows, path)[k]
    decreases |path|
  {
    if path != [] {
      assert (path + [k])[1..] == path[1..] + [k];
      BelowBelow(rows[path[0]].kids, path[1..], k);
    }
  }

  lemma {:induction false} AppendAtAppends(rows: seq<Row>, parent: Path, row: Row)
    requires IsParent(rows, parent)
    ensures IsParent(AppendAt(rows, parent, row), parent)
    ensures Below(AppendAt(rows, parent, row), parent) == Below(rows, parent) + [row]
    decreases |parent|
  {
    if parent != [] {
      AppendAtAppends(rows[parent[0]].kids, parent[1..], row);
    }
  }

  /** Appending below the row just appended. */
  lemma {:induction false} AppendTwice(rows: seq<Row>, parent: Path, row: Row, row2: Row)
    requires IsParent(rows, parent)
    ensures var once := AppendAt(rows, parent, row);
      var iter := parent + [|Below(rows, parent)|];
      IsRow(once, iter) && RowAt(once, iter) == row
      && AppendAt(once, iter, row2) == AppendAt(rows, parent, row.(kids := row.kids + [row2]))
    decreases |parent|
  {
    var n := |Below(rows, parent)|;
    var once := AppendAt(rows, parent, row);
    if parent == [] {
      assert once[n := row.(kids := row.kids + [row2])] == rows + [row.(kids := row.kids + [row2])];
      assert ([] + [n])[1..] == [];
    } else {
      AppendTwice(rows[parent[0]].kids, parent[1..], row, row2);
      assert (parent + [n])[1..] == parent[1..] + [n];
    }
  }

  /** Appending a row leaves every other row where it was, with its group and file name. */
  lemma {:induction false} AppendKeepsRows(rows: seq<Row>, parent: Path, row: Row, path: Path)
    requires IsParent(rows, parent) && IsRow(rows, path)
    ensures var all := AppendAt(rows, parent, row);
      IsRow(all, path) && RowAt(all, path).group == RowAt(rows, path).group
      && RowAt(all, path).filename == RowAt(rows, path).filename
    decreases |path|
  {
    if parent != [] && |path| > 1 && parent[0] == path[0] {
      AppendKeepsRows(rows[path[0]].kids, parent[1..], row, path[1..]);
    }
  }

  // ---------------------------------------------------------------- the folder rows

  function Copy(kids: seq<Tree>): (rows: seq<Row>)
    ensures |rows| == |kids|
    ensures forall i :: 0 <= i < |kids| ==> rows[i] == Folder(kids[i])
  {
    if kids == [] then [] else [Folder(kids[0])] + Copy(kids[1..])
  }

  function Folder(node: Tree): Row {
    Row(Some(node.group), None, Copy(node.kids))
  }

  /** The rows are the folders of a tree, each level followed by profile rows. */
  ghost predicate Lists(rows: seq<Row>, kids: seq<Tree>) {
    && |kids| <= |rows|
    && (forall i :: 0 <= i < |kids| ==>
          rows[i].filename == None && rows[i].group == Some(kids[i].group) && Lists(rows[i].kids, kids[i].kids))
    && (forall i :: |kids| <= i < |rows| ==> rows[i].filename.Some? && rows[i].kids == [])
  }

  lemma {:induction false} CopyLists(kids: seq<Tree>)
    ensures Lists(Copy(kids), kids)
  {
    forall i | 0 <= i < |kids| ensures Lists(Copy(kids[i].kids), kids[i].kids) {
      CopyLists(kids[i].kids);
    }
  }

  predicate IsNode(kids: seq<Tree>, path: Path) {
    path != [] && path[0] < |kids| && (|path| == 1 || IsNode(kids[path[0]].kids, path[1..]))
  }

  function NodeAt(kids: seq<Tree>, path: Path): Tree
    requires IsNode(kids, path)
  {
    if |path| == 1 then kids[path[0]] else NodeAt(kids[path[0]].kids, path[1..])
  }

  /** The names along a path. */
  function Names(kids: seq<Tree>, path: Path): (names: seq<string>)
    requires IsNode(kids, path)
    ensures |names| == |path|
  {
    [kids[path[0]].name] + if |path| == 1 then [] else Names(kids[path[0]].kids, path[1..])
  }

  lemma {:induction false} AppendKeepsLists(rows: seq<Row>, kids: seq<Tree>, parent: Path, row: Row)
    requires Lists(rows, kids) && (parent == [] || IsNode(kids, parent))
    requires row.filename.Some? && row.kids == []
    ensures IsParent(rows, parent) && Lists(AppendAt(rows, parent, row), kids)
    decreases |parent|
  {
    if parent != [] {
      AppendKeepsLists(rows[parent[0]].kids, kids[parent[0]].kids, parent[1..], row);
    }
  }

  /** What the search compares: a folder row whose group string is the one looked for. */
  predicate Matches(rows: seq<Row>, path: Path, group: Option<string>) {
    IsRow(rows, path) && RowAt(rows, path).filename == None && RowAt(rows, path).group == group
  }

  lemma {:induction false} MatchesAreNodes(rows: seq<Row>, kids: seq<Tree>, path: Path, group: Option<string>)
    requires Lists(rows, kids)
    ensures Matches(rows, path, group) <==> IsNode(kids, path) && Some(NodeAt(kids, path).group) == group
    decreases |path|
  {
    if path != [] && path[0] < |rows| {
      var row := rows[path[0]];
      if path[0] >= |kids| {
        assert row.filename.Some? && !IsRow(row.kids, path[1..]);
      } else if |path| > 1 {
        MatchesAreNodes(row.kids, kids[path[0]].kids, path[1..], group);
      }
    }
  }

  lemma {:induction false} NodeGroup(kids: seq<Tree>, at: Option<string>, path: Path)
    requires Canonical(kids, at) && IsNode(kids, path)
    ensures HasPath(kids, Names(kids, path))
    ensures NodeAt(kids, path).group == ChildGroup(at, Join(Names(kids, path)))
    decreases |path|
  {
    var k := path[0];
    if |path| > 1 {
      NodeGroup(kids[k].kids, Some(kids[k].group), path[1..]);
      assert Names(kids, path)[1..] == Names(kids[k].kids, path[1..]);
    } else {
      assert HasPath(kids[k].kids, []);
    }
  }

  lemma {:induction false} NamesAreUnique(kids: seq<Tree>, at: Option<string>, p: Path, q: Path)
    requires Canonical(kids, at) && IsNode(kids, p) && IsNode(kids, q) && Names(kids, p) == Names(kids, q)
    ensures p == q
    decreases |p|
  {
    assert Names(kids, p)[0] == kids[p[0]].name && Names(kids, q)[0] == kids[q[0]].name;
    LessIsTotal(kids[p[0]].name, kids[q[0]].name);
    if |p| > 1 {
      assert Names(kids, p)[1..] == Names(kids[p[0]].kids, p[1..]);
      assert Names(kids, q)[1..] == Names(kids[q[0]].kids, q[1..]);
      NamesAreUnique(kids[p[0]].kids, Some(kids[p[0]].group), p[1..], q[1..]);
      assert p == [p[0]] + p[1..] && q == [q[0]] + q[1..];
    }
  }

  lemma {:induction false} NodeOfPath(kids: seq<Tree>, path: seq<string>) returns (q: Path)
    requires path != [] && HasPath(kids, path)
    ensures IsNode(kids, q) && Names(kids, q) == path
    decreases |path|
  {
    var i: nat :| i < |kids| && kids[i].name == path[0] && HasPath(kids[i].kids, path[1..]);
    if |path| == 1 {
      q := [i];
    } else {
      var rest := NodeOfPath(kids[i].kids, path[1..]);
      q := [i] + rest;
      assert q[1..] == rest;
    }
  }

  ghost predicate AllSlashFree(kids: seq<Tree>) {
    forall p :: HasPath(kids, p) ==> SlashFree(p)
  }

  /** A group string is the group of exactly one folder when its path is in the tree, and of none otherwise. */
  lemma FolderOfGroup(kids: seq<Tree>, group: string)
    requires Canonical(kids, None) && AllSlashFree(kids)
    ensures HasPath(kids, Split(group)) <==> exists q :: IsNode(kids, q) && NodeAt(kids, q).group == group
    ensures forall p, q ::
              (IsNode(kids, p) && IsNode(kids, q) && NodeAt(kids, p).group == group && NodeAt(kids, q).group == group)
              ==> p == q
  {
    JoinSplit(group);
    if HasPath(kids, Split(group)) {
      var q := NodeOfPath(kids, Split(group));
      NodeGroup(kids, None, q);
    }
    forall q | IsNode(kids, q) && NodeAt(kids, q).group == group
      ensures Names(kids, q) == Split(group) && HasPath(kids, Split(group))
    {
      NodeGroup(kids, None, q);
      SplitJoin(Names(kids, q));
    }
    forall p, q | IsNode(kids, p) && IsNode(kids, q) && NodeAt(kids, p).group == group && NodeAt(kids, q).group == group
      ensures p == q
    {
      NamesAreUnique(kids, None, p, q);
    }
  }

  lemma {:induction false} SegmentsSlashFree(group: string)
    ensures SlashFree(Segments(group))
    decreases |group|
  {
    if group != "" {
      var k := IndexOf(group, '/');
      if k < |group| {
        SegmentsSlashFree(group[k + 1..]);
      }
    }
  }

  lemma BuildSlashFree(groups: seq<string>)
    ensures AllSlashFree(Build(groups))
  {
    forall p | HasPath(Build(groups), p) ensures SlashFree(p) {
      TreeOfGroups(groups, p);
      if p != [] {
        var g :| g in groups && p <= Segments(g);
        SegmentsSlashFree(g);
      }
    }
  }

  /** A profile's own group has exactly one folder, unless it is empty or ends in '/'; such a group has one
      just when another profile's path goes through it. */
  lemma FolderOfProfile(groups: seq<string>, group: string)
    requires group in groups
    ensures var kids := Build(groups);
      && (group != "" && !EndsWith(group, '/') ==> HasPath(kids, Split(group)))
      && (group == "" || EndsWith(group, '/') ==>
            (HasPath(kids, Split(group)) <==> exists g :: g in groups && Split(group) <= Segments(g)))
  {
    TreeOfGroups(groups, Split(group));
    SegmentsOfSplit(group);
  }
}
