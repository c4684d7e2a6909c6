/** The grouped profile list of remmina_main.c: copying the group tree into the tree store, and finding the
    folder of each profile. */
module MainList {
  import opened Basics
  import opened CStrings
  import opened GroupTree
  import opened FileManager
  import opened FolderRows

  /** A profile; get_string shows an empty group as NULL. */
  datatype Profile = Profile(group: string, filename: string)

  function GetGroup(p: Profile): Option<string> {
    if p.group == "" then None else Some(p.group)
  }

  /** The groups the tree is built from. */
  function Groups(profiles: seq<Profile>): seq<Option<string>> {
    seq(|profiles|, i requires 0 <= i < |profiles| => GetGroup(profiles[i]))
  }

  /** Where the row of a profile is: the path of its folder, [] for the top level, and its own path. */
  datatype Place = Place(parent: Path, row: Path)

  ghost predicate Placed(rows: seq<Row>, kids: seq<Tree>, p: Profile, place: Place) {
    && IsRow(rows, place.row) && place.row[..|place.row| - 1] == place.parent
    && RowAt(rows, place.row).filename == Some(p.filename) && RowAt(rows, place.row).group == GetGroup(p)
    && (place.parent == [] <==> p.group == "" || !HasPath(kids, Split(p.group)))
    && (place.parent != [] ==> Matches(rows, place.parent, Some(p.group)))
  }

  lemma PathBelow(base: Path, k: nat, child: Path)
    requires |child| > |base| + 1 && child[..|base| + 1] == base + [k]
    ensures child[..|base|] == base && child[|base|] == k && child[|base|..][1..] == child[|base| + 1..]
  {
    assert child[..|base|] == child[..|base| + 1][..|base|];
    assert child[|base|] == child[..|base| + 1][|base|];
  }

  /** A row that does not match, above rows of which none does, rules out all paths through it. */
  lemma NotInRow(level: seq<Row>, k: nat, group: Option<string>)
    requires k < |level| && !(level[k].filename == None && level[k].group == group)
    requires forall p :: !Matches(level[k].kids, p, group)
    ensures forall p :: Matches(level, p, group) ==> p[0] != k
  {
    forall p | Matches(level, p, group) ensures p[0] != k {
      if p[0] == k {
        assert |p| > 1 && Matches(level[k].kids, p[1..], group);
      }
    }
  }

  /** The rows once the first n children of a node are copied: below the row of the node, if it has one. */
  ghost predicate Copied(node: GNode, before: seq<Row>, parent: Path, rows: seq<Row>, n: nat)
    requires n <= |node.kids| && IsParent(before, parent)
    reads node
  {
    rows == if node.data.None? then Copy(node.kids[..n])
            else AppendAt(before, parent, Row(node.Group(), None, Copy(node.kids[..n])))
  }

  lemma CopiedStep(node: GNode, before: seq<Row>, parent: Path, iter: Path, rows: seq<Row>, i: nat)
    requires node.Valid() && i < |node.kids| && IsParent(before, parent) && Copied(node, before, parent, rows, i)
    requires iter == if node.data.None? then [] else parent + [|Below(before, parent)|]
    ensures var child := node.children[i];
      && child.data.Some? && child.Valid() && child.Repr < node.Repr && IsParent(rows, iter)
      && var next := AppendAt(rows, iter, Row(Some(child.data.value.group), None, Copy(child.kids)));
         Copied(node, before, parent, next, i + 1)
  {
    var data := node.children[i].data.value;
    assert node.kids[i] == Node(data.name, data.group, node.children[i].kids);
    CopySnoc(node.kids, i);
    if node.data.Some? {
      AppendTwice(before, parent, Row(node.Group(), None, Copy(node.kids[..i])), Folder(node.kids[i]));
    }
  }

  class TreeStore {
    var rows: seq<Row>

    constructor ()
      ensures rows == []
    {
      rows := [];
    }

    method Append(parent: Path, row: Row) returns (iter: Path)
      requires IsParent(rows, parent)
      modifies this
      ensures rows == AppendAt(old(rows), parent, row)
      ensures iter == parent + [|Below(old(rows), parent)|]
      ensures IsRow(rows, iter) && RowAt(rows, iter) == row
    {
      iter := parent + [|Below(rows, parent)|];
      AppendAtAppends(rows, parent, row);
      BelowBelow(AppendAt(rows, parent, row), parent, |Below(rows, parent)|);
      rows := AppendAt(rows, parent, row);
    }

    /** remmina_main_load_file_tree_traverse */
    method Traverse(node: GNode, parent: Path)
      requires node.Valid() && IsParent(rows, parent)
      requires node.data.None? ==> parent == [] && rows == []
      modifies this
      ensures node.data.None? ==> rows == Copy(node.kids)
      ensures node.data.Some? ==>
                rows == AppendAt(old(rows), parent, Row(Some(node.data.value.group), None, Copy(node.kids)))
      decreases node.Repr, 1
    {
      var iter: Path := [];
      ghost var before := rows;
      if node.data.Some? {
        iter := Append(parent, Row(Some(node.data.value.group), None, []));
      }
      for i := 0 to |node.children|
        invariant Copied(node, before, parent, rows, i)
      {
        TraverseChild(node, i, iter, before, parent);
      }
      assert node.kids[..|node.kids|] == node.kids;
    }

    /** One round of that loop. */
    method TraverseChild(node: GNode, i: nat, iter: Path, ghost before: seq<Row>, ghost parent: Path)
      requires node.Valid() && i < |node.children| && IsParent(before, parent) && Copied(node, before, parent, rows, i)
      requires iter == if node.data.None? then [] else parent + [|Below(before, parent)|]
      modifies this
      ensures Copied(node, before, parent, rows, i + 1)
      decreases node.Repr, 0
    {
      CopiedStep(node, before, parent, iter, rows, i);
      Traverse(node.children[i], iter);
    }

    /** remmina_main_load_file_tree_find: searches the row of an iterator, the rows below it, and the rows that
        follow it at its level. On success the iterator is left at the folder found. `level` are the rows at
        the iterator's level, `base` the path of their parent. */
    method Find(start: Path, group: Option<string>, ghost base: Path, ghost level: seq<Row>)
      returns (match_: bool, iter: Path)
      requires IsParent(rows, base) && level == Below(rows, base)
      requires |start| == |base| + 1 && base == start[..|base|] && start[|base|] < |level|
      ensures match_ ==> |iter| > |base| && iter[..|base|] == base && Matches(level, iter[|base|..], group)
      ensures !match_ ==> forall p :: Matches(level, p, group) ==> p[0] < start[|base|]
      decreases level
    {
      iter := start;
      match_ := false;
      var ret := true;
      while ret
        invariant !match_ && |iter| == |start| && iter[..|base|] == base
        invariant ret ==> start[|base|] <= iter[|base|] < |level|
        invariant forall p :: Matches(level, p, group) && start[|base|] <= p[0] ==> ret && iter[|base|] <= p[0]
        decreases ret, |level| - iter[|base|]
      {
        var k := iter[|iter| - 1];
        assert iter == base + [k];
        BelowBelow(rows, base, k);
        var row := RowAt(rows, iter);
        match_ := row.filename == None && row.group == group;
        if match_ {
          assert iter[|base|..] == [k];
          break;
        }
        if row.kids != [] {
          var child: Path;
          match_, child := Find(iter + [0], group, iter, row.kids);
          if match_ {
            PathBelow(base, k, child);
            iter := child;
            break;
          }
        }
        NotInRow(level, k, group);
        iter := iter[..|iter| - 1] + [k + 1];
        var siblings := Below(rows, iter[..|iter| - 1]);
        ret := k + 1 < |siblings|;
      }
    }

    /** remmina_main_load_file_tree_callback: adds the row of a profile and reports its parent and its path. */
    method AddProfile(p: Profile, ghost kids: seq<Tree>) returns (place: Place)
      requires Lists(rows, kids) && Canonical(kids, None) && AllSlashFree(kids)
      modifies this
      ensures Lists(rows, kids) && Placed(rows, kids, p, place)
      ensures IsParent(old(rows), place.parent)
              && rows == AppendAt(old(rows), place.parent, Row(GetGroup(p), Some(p.filename), []))
    {
      var parent: Path := [];
      if rows != [] {
        var found;
        found, parent := Find([0], GetGroup(p), [], rows);
        if found {
          assert parent[0..] == parent;
        } else {
          parent := [];
        }
      }
      FolderOfGroup(kids, p.group);
      forall q
        ensures Matches(rows, q, GetGroup(p)) <==> IsNode(kids, q) && Some(NodeAt(kids, q).group) == GetGroup(p)
      {
        MatchesAreNodes(rows, kids, q, GetGroup(p));
      }
      assert parent == [] || Matches(rows, parent, GetGroup(p));
      AppendKeepsLists(rows, kids, parent, Row(GetGroup(p), Some(p.filename), []));
      if parent != [] {
        AppendKeepsRows(rows, parent, Row(GetGroup(p), Some(p.filename), []), parent);
      }
      var iter := Append(parent, Row(GetGroup(p), Some(p.filename), []));
      place := Place(parent, iter);
    }
  }

  lemma CopySnoc(kids: seq<Tree>, i: nat)
    requires i < |kids|
    ensures Copy(kids[..i + 1]) == Copy(kids[..i]) + [Folder(kids[i])]
  {
    var more, less := Copy(kids[..i + 1]), Copy(kids[..i]);
    forall j | 0 <= j < |more| ensures more[j] == (less + [Folder(kids[i])])[j] {
      assert more[j] == Folder(kids[..i + 1][j]);
      if j < i {
        assert less[j] == Folder(kids[..i][j]);
      }
    }
  }

  /** Loading the list: the folders are those of the group tree, and every profile has a row, below the one
      folder of its own group; a profile without a group, or whose group ends in '/' and lies on no other
      profile's path, is at the top level. */
  method LoadFileTree(profiles: seq<Profile>) returns (store: TreeStore, ghost kids: seq<Tree>, places: seq<Place>)
    ensures kids == Build(Named(Groups(profiles))) && Lists(store.rows, kids)
    ensures |places| == |profiles|
    ensures forall i :: 0 <= i < |profiles| ==> Placed(store.rows, kids, profiles[i], places[i])
    ensures forall i :: 0 <= i < |profiles| && profiles[i].group != "" && !EndsWith(profiles[i].group, '/') ==>
              places[i].parent != []
  {
    var groups := Groups(profiles);
    var root := GetGroupTree(groups);
    kids := root.kids;
    store := new TreeStore();
    store.Traverse(root, []);
    CopyLists(kids);
    TreeOfGroups(Named(groups), []);
    BuildSlashFree(Named(groups));
    places := AddProfiles(store, profiles, kids);
    forall i | 0 <= i < |profiles| && profiles[i].group != "" && !EndsWith(profiles[i].group, '/')
      ensures places[i].parent != []
    {
      NamedContains(groups, i);
      FolderOfProfile(Named(groups), profiles[i].group);
      assert Placed(store.rows, kids, profiles[i], places[i]);
    }
  }

  /** The second pass over the profiles. */
  method AddProfiles(store: TreeStore, profiles: seq<Profile>, ghost kids: seq<Tree>) returns (places: seq<Place>)
    requires Lists(store.rows, kids) && Canonical(kids, None) && AllSlashFree(kids)
    modifies store
    ensures Lists(store.rows, kids)
    ensures |places| == |profiles|
    ensures forall i :: 0 <= i < |profiles| ==> Placed(store.rows, kids, profiles[i], places[i])
  {
    places := [];
    for i := 0 to |profiles|
      invariant Lists(store.rows, kids) && |places| == i
      invariant forall j :: 0 <= j < i ==> Placed(store.rows, kids, profiles[j], places[j])
    {
      ghost var before := store.rows;
      var place := store.AddProfile(profiles[i], kids);
      forall j | 0 <= j < i ensures Placed(store.rows, kids, profiles[j], places[j]) {
        var row := Row(GetGroup(profiles[i]), Some(profiles[i].filename), []);
        StaysPlaced(before, kids, profiles[j], places[j], place.parent, row);
      }
      places := places + [place];
    }
  }

  lemma StaysPlaced(rows: seq<Row>, kids: seq<Tree>, p: Profile, place: Place, parent: Path, row: Row)
    requires Placed(rows, kids, p, place) && IsParent(rows, parent)
    ensures Placed(AppendAt(rows, parent, row), kids, p, place)
  {
    AppendKeepsRows(rows, parent, row, place.row);
    if place.parent != [] {
      AppendKeepsRows(rows, parent, row, place.parent);
    }
  }

  lemma {:induction false} NamedContains(groups: seq<Option<string>>, i: nat)
    requires i < |groups| && groups[i].Some?
    ensures groups[i].value in Named(groups)
  {
    if i < |groups| - 1 {
      NamedContains(groups[..|groups| - 1], i);
    }
  }
}
