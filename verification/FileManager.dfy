/** The group tree as remmina_file_manager.c builds it: a GNode tree changed in place. */
module FileManager {
  import opened Basics
  import opened CStrings
  import opened GroupTree

  datatype GroupData = GroupData(name: string, group: string)

  class GNode {
    var data: Option<GroupData>  // NULL in the root
    var children: seq<GNode>
    ghost var Repr: set<GNode>
    ghost var kids: seq<Tree>    // the subtrees below this node, as values

    ghost predicate Valid()
      reads this, Repr
      decreases Repr
    {
      && this in Repr
      && |kids| == |children|
      && (forall i :: 0 <= i < |children| ==>
            && children[i] in Repr && children[i].Repr < Repr && this !in children[i].Repr && children[i].Valid()
            && children[i].data.Some?
            && kids[i] == Node(children[i].data.value.name, children[i].data.value.group, children[i].kids))
      && (forall i, j :: 0 <= i < j < |children| ==> children[i].Repr !! children[j].Repr)
    }

    ghost function Group(): Option<string>
      reads this
    {
      if data.Some? then Some(data.value.group) else None
    }

    constructor (data: Option<GroupData>)
      ensures Valid() && fresh(Repr) && Repr == {this}
      ensures this.data == data && kids == []
    {
      this.data, children, kids := data, [], [];
      Repr := {this};
    }

    /** Links a new subtree in before position i (g_node_insert_data_before, g_node_append_data). */
    method InsertChild(i: nat, child: GNode)
      requires Valid() && i <= |children|
      requires child.Valid() && child.data.Some? && child.Repr !! Repr
      modifies this
      ensures Valid() && data == old(data) && Repr == old(Repr) + child.Repr
      ensures kids == InsertAt(old(kids), i, Node(child.data.value.name, child.data.value.group, child.kids))
    {
      children := children[..i] + [child] + children[i..];
      Repr := Repr + child.Repr;
      kids := kids[..i] + [Node(child.data.value.name, child.data.value.group, child.kids)] + kids[i..];
    }

    /** Continues an insertion below the child at position i. */
    method AddBelow(i: nat, group: Option<string>)
      requires Valid() && i < |children|
      modifies Repr
      ensures Valid() && fresh(Repr - old(Repr)) && data == old(data)
      ensures var was := old(kids)[i];
        kids == old(kids)[i := was.(kids := Add(was.kids, Some(was.group), Path(group)))]
      decreases if group.None? then 0 else |group.value| + 1, 1
    {
      var child := children[i];
      ghost var others := set j | 0 <= j < |children| && j != i :: children[j];
      assert forall j :: 0 <= j < |children| && j != i ==> children[j].Repr !! child.Repr;
      child.AddGroup(group);
      Repr := Repr + child.Repr;
      kids := kids[i := kids[i].(kids := child.kids)];
    }

    /** remmina_file_manager_add_group */
    method AddGroup(group: Option<string>)
      requires Valid()
      modifies Repr
      ensures Valid() && fresh(Repr - old(Repr)) && data == old(data)
      ensures kids == Add(old(kids), Group(), Path(group))
      decreases if group.None? then 0 else |group.value| + 1, 0
    {
      if group.None? || group.value == "" {
        return;
      }
      var slash := IndexOf(group.value, '/');
      var p1 := group.value[..slash];
      var p2 := if slash < |group.value| then Some(group.value[slash + 1..]) else None;
      PathStep(group.value, p1, p2);
      AddStep(kids, Group(), p1, Path(p2));
      var i := FindChild(p1);
      if i < |children| && children[i].data.value.name == p1 {
        AddBelow(i, p2);
      } else {
        AddNew(i, p1, p2);
      }
    }

    /** Links in a new child of the given name and continues the insertion below it. */
    method AddNew(i: nat, name: string, group: Option<string>)
      requires Valid() && i <= |children|
      modifies this
      ensures Valid() && fresh(Repr - old(Repr)) && data == old(data)
      ensures var path := ChildGroup(Group(), name);
        kids == old(kids)[..i] + [Node(name, path, Add([], Some(path), Path(group)))] + old(kids)[i..]
      decreases if group.None? then 0 else |group.value| + 1, 1
    {
      var path := if data.Some? then data.value.group + "/" + name else name;
      var child := new GNode(Some(GroupData(name, path)));
      child.AddGroup(group);
      InsertChild(i, child);
    }

    /** The sibling loop of the insertion. */
    method FindChild(name: string) returns (i: nat)
      requires Valid()
      ensures i == Scan(kids, name)
    {
      i := 0;
      while i < |children| && Less(children[i].data.value.name, name)
        invariant i <= |children|
        invariant forall j :: 0 <= j < i ==> Less(kids[j].name, name)
      {
        i := i + 1;
      }
      ScanStops(kids, name, i);
    }
  }

  /** The path of an insertion; a NULL group inserts nothing. */
  function Path(group: Option<string>): seq<string> {
    if group.None? then [] else Segments(group.value)
  }

  lemma PathStep(group: string, p1: string, p2: Option<string>)
    requires group != "" && p1 == group[..IndexOf(group, '/')]
    requires p2 == if IndexOf(group, '/') < |group| then Some(group[IndexOf(group, '/') + 1..]) else None
    ensures Path(Some(group)) == [p1] + Path(p2)
  {
    assert group[..|group|] == group;
  }

  /** One level of an insertion. */
  lemma AddStep(kids: seq<Tree>, at: Option<string>, name: string, rest: seq<string>)
    ensures var i := Scan(kids, name);
      Add(kids, at, [name] + rest) ==
        if i < |kids| && kids[i].name == name then
          kids[i := kids[i].(kids := Add(kids[i].kids, Some(kids[i].group), rest))]
        else
          kids[..i] + [Node(name, ChildGroup(at, name), Add([], Some(ChildGroup(at, name)), rest))] + kids[i..]
  {
    assert ([name] + rest)[1..] == rest;
  }

  lemma ScanStops(kids: seq<Tree>, name: string, i: nat)
    requires i <= |kids|
    requires forall j :: 0 <= j < i ==> Less(kids[j].name, name)
    requires i < |kids| ==> !Less(kids[i].name, name)
    ensures Scan(kids, name) == i
  {
  }

  /** remmina_file_manager_get_group_tree: the tree of the groups of all profiles, in directory order. */
  method GetGroupTree(groups: seq<Option<string>>) returns (root: GNode)
    ensures root.Valid() && fresh(root.Repr) && root.data == None
    ensures root.kids == Build(Named(groups))
  {
    root := new GNode(None);
    for n := 0 to |groups|
      invariant root.Valid() && fresh(root.Repr) && root.data == None
      invariant root.kids == Build(Named(groups[..n]))
    {
      NamedStep(groups, n);
      root.AddGroup(groups[n]);
    }
    assert groups[..|groups|] == groups;
  }

  /** The groups of the profiles that have one. */
  function Named(groups: seq<Option<string>>): seq<string> {
    if groups == [] then []
    else
      var last := groups[|groups| - 1];
      Named(groups[..|groups| - 1]) + (if last.Some? then [last.value] else [])
  }

  lemma NamedStep(groups: seq<Option<string>>, n: nat)
    requires n < |groups|
    ensures Build(Named(groups[..n + 1])) == Add(Build(Named(groups[..n])), None, Path(groups[n]))
  {
    NamedSnoc(groups[..n], groups[n]);
    assert groups[..n + 1] == groups[..n] + [groups[n]];
  }

  lemma NamedSnoc(groups: seq<Option<string>>, last: Option<string>)
    ensures Build(Named(groups + [last])) == Add(Build(Named(groups)), None, Path(last))
  {
    var all := groups + [last];
    assert all[..|all| - 1] == groups;
    var names := Named(groups);
    if last.Some? {
      var more := names + [last.value];
      assert Named(all) == more;
      assert more[..|more| - 1] == names;
    } else {
      assert Named(all) == names;
    }
  }
}
