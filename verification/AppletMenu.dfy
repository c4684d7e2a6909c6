/** The applet menu of remmina_applet_menu.c: profile items below nested group menus, kept in collation order
    with a count on each group. Menus are numbered in order of creation; number 0 is the applet menu itself,
    and a group entry points to its submenu by number. */
module AppletMenu {
  import opened Basics
  import opened CStrings
  import GroupTree

  /** A profile item; `id` stands for its file, so no two profiles give equal items. */
  datatype Item = Item(id: nat, name: string, group: Option<string>)

  datatype Entry =
    | Group(name: string, count: nat, menu: nat)
    | Leaf(item: Item)

  type Menu = seq<Entry>

  /** strcoll(a, b) <= 0 */
  type Collation = (string, string) -> bool

  ghost predicate TotalPreorder(le: Collation) {
    && (forall a, b :: le(a, b) || le(b, a))
    && (forall a, b, c :: le(a, b) && le(b, c) ==> le(a, c))
  }

  // ---------------------------------------------------------------- one menu

  /** Submenus first, in collation order and with distinct names, then items in collation order. */
  ghost predicate Ordered(le: Collation, menu: Menu) {
    forall i, j :: 0 <= i < j < |menu| ==> InOrder(le, menu[i], menu[j])
  }

  predicate InOrder(le: Collation, a: Entry, b: Entry) {
    match (a, b)
    case (Group(m, _, _), Group(n, _, _)) => m != n && le(m, n)
    case (Group(_, _, _), Leaf(_)) => true
    case (Leaf(_), Group(_, _, _)) => false
    case (Leaf(x), Leaf(y)) => le(x.name, y.name) && x != y
  }

  /** Where the scan for a group stops: at its entry, at a later group or at the first item. */
  predicate Stops(le: Collation, e: Entry, name: string) {
    e.Leaf? || e.name == name || !le(e.name, name)
  }

  lemma InsertOrdered(le: Collation, menu: Menu, i: nat, e: Entry)
    requires Ordered(le, menu) && i <= |menu|
    requires forall j :: 0 <= j < i ==> InOrder(le, menu[j], e)
    requires forall j :: i <= j < |menu| ==> InOrder(le, e, menu[j])
    ensures Ordered(le, InsertAt(menu, i, e))
  {
    var all := InsertAt(menu, i, e);
    forall j, k | 0 <= j < k < |all| ensures InOrder(le, all[j], all[k]) {
      assert all[j] == if j < i then menu[j] else if j == i then e else menu[j - 1];
      assert all[k] == if k < i then menu[k] else if k == i then e else menu[k - 1];
    }
  }

  /** A group that the menu already has is found; a new one fits where the scan stopped. */
  lemma GroupFits(le: Collation, menu: Menu, name: string, i: nat, e: Entry)
    requires TotalPreorder(le) && Ordered(le, menu) && i <= |menu|
    requires forall j :: 0 <= j < i ==> !Stops(le, menu[j], name)
    requires i < |menu| ==> Stops(le, menu[i], name)
    requires i < |menu| && menu[i].Group? ==> menu[i].name != name
    requires e.Group? && e.name == name
    ensures Ordered(le, InsertAt(menu, i, e))
  {
    forall j | i <= j < |menu| ensures InOrder(le, e, menu[j]) {
      if j > i {
        assert InOrder(le, menu[i], menu[j]);
      }
    }
    InsertOrdered(le, menu, i, e);
  }

  /** An item fits before the first item that is not before it. */
  lemma ItemFits(le: Collation, menu: Menu, item: Item, i: nat)
    requires TotalPreorder(le) && Ordered(le, menu) && i <= |menu|
    requires forall j :: 0 <= j < i && menu[j].Leaf? ==> !le(item.name, menu[j].item.name)
    requires i < |menu| ==> menu[i].Leaf? && le(item.name, menu[i].item.name)
    requires forall j :: 0 <= j < |menu| && menu[j].Leaf? ==> menu[j].item != item
    ensures Ordered(le, InsertAt(menu, i, Leaf(item)))
  {
    forall j | i <= j < |menu| ensures InOrder(le, Leaf(item), menu[j]) {
      if j > i {
        assert InOrder(le, menu[i], menu[j]);
      }
    }
    InsertOrdered(le, menu, i, Leaf(item));
  }

  // ---------------------------------------------------------------- all menus

  /** Where each menu hangs, under which name, and which menu each item is in. */
  datatype Shape = Shape(parent: seq<nat>, title: seq<string>, home: map<Item, nat>)

  ghost predicate Hangs(menus: seq<Menu>, s: Shape, c: nat)
    requires |s.parent| == |s.title| == |menus| && c < |menus|
  {
    s.parent[c] < c && exists i :: 0 <= i < |menus[s.parent[c]]| && IsGroup(menus[s.parent[c]][i], s.title[c], c)
  }

  predicate IsGroup(e: Entry, name: string, menu: nat) {
    e.Group? && e.name == name && e.menu == menu
  }

  ghost predicate EntryLinked(menus: seq<Menu>, s: Shape, m: nat, e: Entry)
    requires |s.parent| == |s.title| == |menus|
  {
    match e
    case Group(name, _, c) => 0 < c < |menus| && s.parent[c] == m && s.title[c] == name
    case Leaf(item) => item in s.home && s.home[item] == m
  }

  ghost predicate Holds(menu: Menu, item: Item) {
    exists i :: 0 <= i < |menu| && menu[i] == Leaf(item)
  }

  /** The menus form a tree rooted at menu 0, and every item is in exactly one place. */
  ghost predicate Linked(menus: seq<Menu>, s: Shape) {
    && |s.parent| == |s.title| == |menus| && |menus| > 0
    && (forall c :: 1 <= c < |menus| ==> Hangs(menus, s, c))
    && (forall m, i :: 0 <= m < |menus| && 0 <= i < |menus[m]| ==> EntryLinked(menus, s, m, menus[m][i]))
    && (forall x :: x in s.home ==> s.home[x] < |menus| && Holds(menus[s.home[x]], x))
  }

  /** Menu d is menu a or lies somewhere below it. */
  predicate Within(parent: seq<nat>, a: nat, d: nat)
    decreases d
  {
    a == d || (a < d < |parent| && parent[d] < d && Within(parent, a, parent[d]))
  }

  ghost function ItemsWithin(s: Shape, a: nat): set<Item> {
    set x | x in s.home && Within(s.parent, a, s.home[x])
  }

  /** Every group shows the number of items in its subtree, plus one on the way down to `open`. */
  ghost predicate Counted(menus: seq<Menu>, s: Shape, open: Option<nat>) {
    forall m, i :: 0 <= m < |menus| && 0 <= i < |menus[m]| && menus[m][i].Group? ==>
      menus[m][i].count
      == |ItemsWithin(s, menus[m][i].menu)|
         + if open.Some? && Within(s.parent, menus[m][i].menu, open.value) then 1 else 0
  }

  /** No group is there without an item below it, or on its way there. */
  ghost predicate Peopled(s: Shape, open: Option<nat>) {
    forall m :: 0 < m < |s.parent| ==> ItemsWithin(s, m) != {} || (open.Some? && Within(s.parent, m, open.value))
  }

  /** The names from the applet menu down to a menu. */
  function PathOf(s: Shape, m: nat): seq<string>
    decreases m
  {
    if 0 < m < |s.parent| && m < |s.title| && s.parent[m] < m then PathOf(s, s.parent[m]) + [s.title[m]] else []
  }

  /** The groups an item is filed under: the segments of its group up to the first empty one. */
  function MenuPath(group: Option<string>): seq<string>
    decreases if group.None? then 0 else |group.value| + 1
  {
    if group.None? || group.value == "" then []
    else
      var k := IndexOf(group.value, '/');
      if k == 0 then []
      else [group.value[..k]] + MenuPath(if k < |group.value| then Some(group.value[k + 1..]) else None)
  }

  /** The applet menu follows the group tree's segments, but stops at the first empty one. */
  lemma {:induction false} MenuPathIsSegments(group: string)
    ensures var path, all := MenuPath(Some(group)), GroupTree.Segments(group);
      path <= all && "" !in path && (|path| < |all| ==> all[|path|] == "")
    decreases |group|
  {
    var k := IndexOf(group, '/');
    assert k == |group| ==> group[..k] == group;
    if 0 < k < |group| {
      var rest := group[k + 1..];
      MenuPathIsSegments(rest);
      assert MenuPath(Some(group)) == [group[..k]] + MenuPath(Some(rest));
      assert GroupTree.Segments(group) == [group[..k]] + GroupTree.Segments(rest);
    }
  }

  // ---------------------------------------------------------------- growing the tree

  /** A shape that only gained menus and items. */
  ghost predicate Grows(s: Shape, t: Shape) {
    s.parent <= t.parent && s.title <= t.title && forall x :: x in s.home ==> x in t.home && t.home[x] == s.home[x]
  }

  lemma {:induction false} WithinGrows(p: seq<nat>, q: seq<nat>, a: nat, d: nat)
    requires p <= q && d < |p|
    ensures Within(p, a, d) <==> Within(q, a, d)
    decreases d
  {
    if a < d && p[d] < d {
      WithinGrows(p, q, a, p[d]);
    }
  }

  lemma {:induction false} PathGrows(s: Shape, t: Shape, m: nat)
    requires s.parent <= t.parent && s.title <= t.title && |s.parent| == |s.title| && |t.parent| == |t.title|
    requires m < |s.parent|
    ensures PathOf(s, m) == PathOf(t, m)
    decreases m
  {
    if 0 < m && s.parent[m] < m {
      PathGrows(s, t, s.parent[m]);
    }
  }

  /** A new empty submenu hung below menu m. */
  function Hang(s: Shape, m: nat, name: string): Shape {
    s.(parent := s.parent + [m], title := s.title + [name])
  }

  lemma NewMenuLinked(menus: seq<Menu>, s: Shape, m: nat, i: nat, name: string, count: nat)
    requires Linked(menus, s) && m < |menus| && i <= |menus[m]|
    ensures Linked(menus[m := InsertAt(menus[m], i, Group(name, count, |menus|))] + [[]], Hang(s, m, name))
  {
    var n := |menus|;
    var e := Group(name, count, n);
    var row := InsertAt(menus[m], i, e);
    var all: seq<Menu> := menus[m := row] + [[]];
    var t := Hang(s, m, name);
    RowMembers(menus[m], i, e);
    assert row[i] == e;
    forall c | 1 <= c < |all| ensures Hangs(all, t, c) {
      if c < n {
        assert Hangs(menus, s, c);
        var k :| 0 <= k < |menus[s.parent[c]]| && IsGroup(menus[s.parent[c]][k], s.title[c], c);
        if s.parent[c] == m {
          assert IsGroup(row[if k < i then k else k + 1], s.title[c], c);
        } else {
          assert IsGroup(all[s.parent[c]][k], s.title[c], c);
        }
      } else {
        assert IsGroup(all[m][i], name, n);
      }
    }
    forall x | x in t.home ensures t.home[x] < |all| && Holds(all[t.home[x]], x) {
      assert Holds(menus[s.home[x]], x);
      if s.home[x] == m {
        var k :| 0 <= k < |menus[m]| && menus[m][k] == Leaf(x);
        assert row[if k < i then k else k + 1] == menus[m][k];
      }
    }
    forall q, k | 0 <= q < |all| && 0 <= k < |all[q]| ensures EntryLinked(all, t, q, all[q][k]) {
      if q == m {
        if k != i {
          assert EntryLinked(menus, s, m, menus[m][if k < i then k else k - 1]);
        }
      } else if q < n {
        assert EntryLinked(menus, s, q, menus[q][k]);
      }
    }
  }

  lemma RowMembers<T>(s: seq<T>, i: nat, x: T)
    requires i <= |s|
    ensures var r := InsertAt(s, i, x);
      |r| == |s| + 1 && r[i] == x
      && (forall k :: 0 <= k < i ==> r[k] == s[k]) && (forall k :: i < k < |r| ==> r[k] == s[k - 1])
      && (forall k :: i <= k < |s| ==> r[k + 1] == s[k])
  {
  }

  lemma NewItemLinked(menus: seq<Menu>, s: Shape, m: nat, i: nat, item: Item)
    requires Linked(menus, s) && m < |menus| && i <= |menus[m]| && item !in s.home
    ensures Linked(menus[m := InsertAt(menus[m], i, Leaf(item))], s.(home := s.home[item := m]))
  {
    var row := InsertAt(menus[m], i, Leaf(item));
    var all: seq<Menu> := menus[m := row];
    var t := s.(home := s.home[item := m]);
    RowMembers(menus[m], i, Leaf(item));
    forall c | 1 <= c < |all| ensures Hangs(all, t, c) {
      assert Hangs(menus, s, c);
      var k :| 0 <= k < |menus[s.parent[c]]| && IsGroup(menus[s.parent[c]][k], s.title[c], c);
      if s.parent[c] == m {
        assert IsGroup(row[if k < i then k else k + 1], s.title[c], c);
      } else {
        assert IsGroup(all[s.parent[c]][k], s.title[c], c);
      }
    }
    forall x | x in t.home ensures t.home[x] < |all| && Holds(all[t.home[x]], x) {
      if x == item {
        assert row[i] == Leaf(x);
      } else {
        assert Holds(menus[s.home[x]], x);
        if s.home[x] == m {
          var k :| 0 <= k < |menus[m]| && menus[m][k] == Leaf(x);
          assert row[if k < i then k else k + 1] == menus[m][k];
        }
      }
    }
    forall q, k | 0 <= q < |all| && 0 <= k < |all[q]| ensures EntryLinked(all, t, q, all[q][k]) {
      if q == m {
        if k != i {
          assert EntryLinked(menus, s, m, menus[m][if k < i then k else k - 1]);
        }
      } else {
        assert EntryLinked(menus, s, q, menus[q][k]);
      }
    }
  }

  // ---------------------------------------------------------------- counts and order over all menus

  ghost predicate AllOrdered(le: Collation, menus: seq<Menu>) {
    forall m :: 0 <= m < |menus| ==> Ordered(le, menus[m])
  }

  ghost predicate Uncounted(menus: seq<Menu>) {
    forall m, i :: 0 <= m < |menus| && 0 <= i < |menus[m]| && menus[m][i].Group? ==> menus[m][i].count == 0
  }

  /** Menu m with another count on its entry i. */
  function Recount(menus: seq<Menu>, m: nat, i: nat, count: nat): seq<Menu>
    requires m < |menus| && i < |menus[m]| && menus[m][i].Group?
  {
    menus[m := menus[m][i := menus[m][i].(count := count)]]
  }

  /** Counts have no part in the order or in the tree. */
  lemma RecountKeeps(le: Collation, menus: seq<Menu>, s: Shape, m: nat, i: nat, count: nat)
    requires Linked(menus, s) && AllOrdered(le, menus)
    requires m < |menus| && i < |menus[m]| && menus[m][i].Group?
    ensures Linked(Recount(menus, m, i, count), s) && AllOrdered(le, Recount(menus, m, i, count))
  {
    var all: seq<Menu> := Recount(menus, m, i, count);
    forall c | 1 <= c < |all| ensures Hangs(all, s, c) {
      assert Hangs(menus, s, c);
      var k :| 0 <= k < |menus[s.parent[c]]| && IsGroup(menus[s.parent[c]][k], s.title[c], c);
      assert IsGroup(all[s.parent[c]][k], s.title[c], c);
    }
    forall x | x in s.home ensures Holds(all[s.home[x]], x) {
      assert Holds(menus[s.home[x]], x);
      var k :| 0 <= k < |menus[s.home[x]]| && menus[s.home[x]][k] == Leaf(x);
      assert all[s.home[x]][k] == Leaf(x);
    }
    forall q, k | 0 <= q < |all| && 0 <= k < |all[q]| ensures EntryLinked(all, s, q, all[q][k]) {
      assert EntryLinked(menus, s, q, menus[q][k]);
    }
    forall j, k | 0 <= j < k < |all[m]| ensures InOrder(le, all[m][j], all[m][k]) {
      assert InOrder(le, menus[m][j], menus[m][k]);
    }
  }

  lemma NamesDiffer(le: Collation, menu: Menu, i: nat, j: nat)
    requires Ordered(le, menu) && i < |menu| && j < |menu| && menu[i].Group? && menu[j].Group?
    ensures menu[i].name == menu[j].name ==> i == j
  {
    assert i < j ==> InOrder(le, menu[i], menu[j]);
    assert j < i ==> InOrder(le, menu[j], menu[i]);
  }

  /** Going down into an existing group raises the count of that group alone. */
  lemma CountedBelow(le: Collation, menus: seq<Menu>, s: Shape, m: nat, i: nat)
    requires Linked(menus, s) && AllOrdered(le, menus) && Counted(menus, s, Some(m))
    requires m < |menus| && i < |menus[m]| && menus[m][i].Group?
    ensures Counted(Recount(menus, m, i, menus[m][i].count + 1), s, Some(menus[m][i].menu))
  {
    var c := menus[m][i].menu;
    assert EntryLinked(menus, s, m, menus[m][i]) && Hangs(menus, s, c);
    var all: seq<Menu> := Recount(menus, m, i, menus[m][i].count + 1);
    forall q, k | 0 <= q < |all| && 0 <= k < |all[q]| && all[q][k].Group?
      ensures all[q][k].count == |ItemsWithin(s, all[q][k].menu)| + if Within(s.parent, all[q][k].menu, c) then 1 else 0
    {
      assert EntryLinked(menus, s, q, menus[q][k]);
      if all[q][k].menu == c {
        NamesDiffer(le, menus[m], k, i);
      }
    }
  }

  /** Going down into a new group. */
  lemma CountedInNew(menus: seq<Menu>, s: Shape, m: nat, i: nat, name: string)
    requires Linked(menus, s) && Counted(menus, s, Some(m)) && m < |menus| && i <= |menus[m]|
    ensures Counted(menus[m := InsertAt(menus[m], i, Group(name, 1, |menus|))] + [[]], Hang(s, m, name), Some(|menus|))
  {
    var n := |menus|;
    var e := Group(name, 1, n);
    var all: seq<Menu> := menus[m := InsertAt(menus[m], i, e)] + [[]];
    var t := Hang(s, m, name);
    RowMembers(menus[m], i, e);
    forall q, k | 0 <= q < |all| && 0 <= k < |all[q]| && all[q][k].Group?
      ensures all[q][k].count == |ItemsWithin(t, all[q][k].menu)| + if Within(t.parent, all[q][k].menu, n) then 1 else 0
    {
      var a := all[q][k].menu;
      if q == m && k == i {
        assert ItemsWithin(t, n) == {};
      } else {
        var was := if q == m && k > i then k - 1 else k;
        assert all[q][k] == menus[q][was] && EntryLinked(menus, s, q, menus[q][was]);
        forall x | x in s.home ensures Within(s.parent, a, s.home[x]) == Within(t.parent, a, t.home[x]) {
          WithinGrows(s.parent, t.parent, a, s.home[x]);
        }
        assert ItemsWithin(t, a) == ItemsWithin(s, a);
        WithinGrows(s.parent, t.parent, a, m);
        assert t.parent[n] == m;
      }
    }
  }

  function WithMenu(menus: seq<Menu>, m: nat, i: nat, name: string, count: nat): seq<Menu>
    requires m < |menus| && i <= |menus[m]|
  {
    menus[m := InsertAt(menus[m], i, Group(name, count, |menus|))] + [[]]
  }

  lemma CountNew(menus: seq<Menu>, m: nat, i: nat, name: string)
    requires m < |menus| && i <= |menus[m]|
    ensures var all := WithMenu(menus, m, i, name, 0);
      && all[m][i] == Group(name, 0, |menus|)
      && Recount(all, m, i, 1) == WithMenu(menus, m, i, name, 1)
  {
    var row := InsertAt(menus[m], i, Group(name, 0, |menus|));
    assert row[i := Group(name, 1, |menus|)] == InsertAt(menus[m], i, Group(name, 1, |menus|));
  }

  lemma OneMoreWithin(s: Shape, a: nat, item: Item, m: nat)
    requires item !in s.home
    ensures |ItemsWithin(s.(home := s.home[item := m]), a)|
            == |ItemsWithin(s, a)| + if Within(s.parent, a, m) then 1 else 0
  {
    var t := s.(home := s.home[item := m]);
    if Within(s.parent, a, m) {
      assert ItemsWithin(t, a) == ItemsWithin(s, a) + {item};
    } else {
      assert ItemsWithin(t, a) == ItemsWithin(s, a);
    }
  }

  /** The item that was on its way down arrives. */
  lemma CountedItem(menus: seq<Menu>, s: Shape, m: nat, i: nat, item: Item)
    requires Linked(menus, s) && Counted(menus, s, Some(m)) && m < |menus| && i <= |menus[m]| && item !in s.home
    ensures Counted(menus[m := InsertAt(menus[m], i, Leaf(item))], s.(home := s.home[item := m]), None)
  {
    var all: seq<Menu> := menus[m := InsertAt(menus[m], i, Leaf(item))];
    var t := s.(home := s.home[item := m]);
    RowMembers(menus[m], i, Leaf(item));
    forall q, k | 0 <= q < |all| && 0 <= k < |all[q]| && all[q][k].Group?
      ensures all[q][k].count == |ItemsWithin(t, all[q][k].menu)|
    {
      var a := all[q][k].menu;
      assert all[q][k] == menus[q][if q == m && k > i then k - 1 else k];
      OneMoreWithin(s, a, item, m);
    }
  }

  lemma PeopledInNew(s: Shape, m: nat, name: string)
    requires Peopled(s, Some(m)) && m < |s.parent|
    requires forall x :: x in s.home ==> s.home[x] < |s.parent|
    ensures Peopled(Hang(s, m, name), Some(|s.parent|))
  {
    var t := Hang(s, m, name);
    forall a | 0 < a < |s.parent| ensures ItemsWithin(t, a) != {} || Within(t.parent, a, |s.parent|) {
      WithinGrows(s.parent, t.parent, a, m);
      if !Within(s.parent, a, m) {
        var x :| x in ItemsWithin(s, a);
        WithinGrows(s.parent, t.parent, a, s.home[x]);
        assert x in ItemsWithin(t, a);
      }
    }
  }

  lemma PeopledItem(s: Shape, m: nat, item: Item)
    requires Peopled(s, Some(m)) && item !in s.home
    ensures Peopled(s.(home := s.home[item := m]), None)
  {
    var t := s.(home := s.home[item := m]);
    forall a | 0 < a < |s.parent| ensures ItemsWithin(t, a) != {} {
      if Within(s.parent, a, m) {
        assert item in ItemsWithin(t, a);
      } else {
        var x :| x in ItemsWithin(s, a);
        assert x in ItemsWithin(t, a);
      }
    }
  }

  /** All of it together. `open` is the menu that an item being added has reached. */
  ghost predicate InPlace(le: Collation, menus: seq<Menu>, s: Shape, hidden: bool, open: Option<nat>) {
    && TotalPreorder(le) && Linked(menus, s) && AllOrdered(le, menus) && Peopled(s, open)
    && (if hidden then Uncounted(menus) else Counted(menus, s, open))
  }

  lemma EntersExisting(le: Collation, menus: seq<Menu>, s: Shape, hidden: bool, m: nat, i: nat)
    requires InPlace(le, menus, s, hidden, Some(m)) && m < |menus| && i < |menus[m]| && menus[m][i].Group?
    ensures var sub := menus[m][i].menu;
      && 0 < sub < |menus| && s.parent[sub] == m && s.title[sub] == menus[m][i].name
      && InPlace(le, if hidden then menus else Recount(menus, m, i, menus[m][i].count + 1), s, hidden, Some(sub))
  {
    var sub := menus[m][i].menu;
    assert EntryLinked(menus, s, m, menus[m][i]) && Hangs(menus, s, sub);
    assert Peopled(s, Some(sub));
    if !hidden {
      RecountKeeps(le, menus, s, m, i, menus[m][i].count + 1);
      CountedBelow(le, menus, s, m, i);
    }
  }

  lemma EntersNew(le: Collation, menus: seq<Menu>, s: Shape, hidden: bool, m: nat, i: nat, name: string)
    requires InPlace(le, menus, s, hidden, Some(m)) && m < |menus| && i <= |menus[m]|
    requires forall e: Entry :: e.Group? && e.name == name ==> Ordered(le, InsertAt(menus[m], i, e))
    ensures InPlace(le, WithMenu(menus, m, i, name, if hidden then 0 else 1), Hang(s, m, name), hidden, Some(|menus|))
  {
    NewMenuLinked(menus, s, m, i, name, if hidden then 0 else 1);
    PeopledInNew(s, m, name);
    if hidden {
      RowMembers(menus[m], i, Group(name, 0, |menus|));
    } else {
      CountedInNew(menus, s, m, i, name);
    }
  }

  /** An item put before the first one it is not after leaves everything in place. */
  lemma ItemArrives(le: Collation, menus: seq<Menu>, s: Shape, hidden: bool, m: nat, i: nat, item: Item)
    requires InPlace(le, menus, s, hidden, Some(m)) && m < |menus| && i <= |menus[m]| && item !in s.home
    requires StopsForItem(le, menus[m], i, item.name)
    ensures InPlace(le, menus[m := InsertAt(menus[m], i, Leaf(item))], s.(home := s.home[item := m]), hidden, None)
  {
    forall j | 0 <= j < |menus[m]| && menus[m][j].Leaf? ensures menus[m][j].item != item {
      assert EntryLinked(menus, s, m, menus[m][j]);
    }
    ItemFits(le, menus[m], item, i);
    NewItemLinked(menus, s, m, i, item);
    PeopledItem(s, m, item);
    if hidden {
      RowMembers(menus[m], i, Leaf(item));
    } else {
      CountedItem(menus, s, m, i, item);
    }
  }

  /** Where the scan for an item stops: at the first item it is not after, or at the end. */
  ghost predicate StopsForItem(le: Collation, menu: Menu, i: nat, name: string) {
    && i <= |menu|
    && (forall j :: 0 <= j < i && menu[j].Leaf? ==> !le(name, menu[j].item.name))
    && (i < |menu| ==> menu[i].Leaf? && le(name, menu[i].item.name))
  }

  // ---------------------------------------------------------------- the menu object

  class AppletMenu {
    const le: Collation
    var menus: seq<Menu>
    var hideCount: bool
    ghost var shape: Shape

    /** `open` is the menu that the item being added has reached. */
    ghost predicate Sound(open: Option<nat>)
      reads this
    {
      InPlace(le, menus, shape, hideCount, open)
    }

    ghost predicate Valid()
      reads this
    {
      Sound(None)
    }

    constructor (le: Collation)
      requires TotalPreorder(le)
      ensures Valid() && this.le == le && !hideCount && shape.home == map[]
    {
      this.le := le;
      menus := [[]];
      hideCount := false;
      shape := Shape([0], [""], map[]);
    }

    /** Called on a menu that is still empty. */
    method SetHideCount(hidden: bool)
      requires Valid() && menus == [[]]
      modifies this`hideCount
      ensures Valid() && hideCount == hidden
    {
      hideCount := hidden;
    }

    /** Position -1 appends. */
    method AddGroup(m: nat, group: string, position: int) returns (submenu: nat, at: nat)
      requires m < |menus| && -1 <= position <= |menus[m]|
      modifies this`menus
      ensures submenu == |old(menus)| && at == if position < 0 then |old(menus)[m]| else position
      ensures menus == old(menus)[m := InsertAt(old(menus)[m], at, Group(group, 0, submenu))] + [[]]
    {
      submenu := |menus|;
      at := if position < 0 then |menus[m]| else position;
      menus := menus[m := menus[m][..at] + [Group(group, 0, submenu)] + menus[m][at..]];
      menus := menus + [[]];
    }

    method IncreaseGroupCount(m: nat, at: nat)
      requires m < |menus| && at < |menus[m]| && menus[m][at].Group?
      modifies this`menus
      ensures menus == Recount(old(menus), m, at, old(menus)[m][at].count + 1)
    {
      menus := menus[m := menus[m][at := menus[m][at].(count := menus[m][at].count + 1)]];
    }

    /** The scan of one menu for a group: the place of its entry, or else where a new entry goes. */
    method Scan(m: nat, name: string) returns (found: bool, at: nat)
      requires Sound(Some(m)) && m < |menus|
      ensures at <= |menus[m]|
      ensures found ==> at < |menus[m]| && menus[m][at].Group? && menus[m][at].name == name
      ensures !found ==> forall j :: 0 <= j < |menus[m]| && menus[m][j].Group? ==> menus[m][j].name != name
      ensures !found ==> forall e: Entry :: e.Group? && e.name == name ==> Ordered(le, InsertAt(menus[m], at, e))
    {
      found, at := false, 0;
      var menu := menus[m];
      while at < |menu| && !Stops(le, menu[at], name)
        invariant at <= |menu|
        invariant forall j :: 0 <= j < at ==> !Stops(le, menu[j], name)
      {
        at := at + 1;
      }
      found := at < |menu| && menu[at].Group? && menu[at].name == name;
      if !found {
        assert Ordered(le, menu);
        forall j | at <= j < |menu| && menu[j].Group? ensures menu[j].name != name {
          if j > at {
            assert InOrder(le, menu[at], menu[j]);
          }
        }
        forall e: Entry | e.Group? && e.name == name ensures Ordered(le, InsertAt(menu, at, e)) {
          GroupFits(le, menu, name, at, e);
        }
      }
    }

    method EnterExisting(m: nat, at: nat) returns (submenu: nat)
      requires Sound(Some(m)) && m < |menus| && at < |menus[m]| && menus[m][at].Group?
      modifies this`menus
      ensures Sound(Some(submenu)) && 0 < submenu < |menus|
      ensures shape.parent[submenu] == m && shape.title[submenu] == old(menus)[m][at].name
    {
      submenu := menus[m][at].menu;
      EntersExisting(le, menus, shape, hideCount, m, at);
      if !hideCount {
        IncreaseGroupCount(m, at);
      }
    }

    method EnterNew(m: nat, name: string, position: nat) returns (submenu: nat)
      requires Sound(Some(m)) && m < |menus| && position <= |menus[m]|
      requires forall e: Entry :: e.Group? && e.name == name ==> Ordered(le, InsertAt(menus[m], position, e))
      modifies this`menus, this`shape
      ensures Sound(Some(submenu)) && submenu < |menus|
      ensures submenu == |old(menus)| && shape == Hang(old(shape), m, name)
    {
      ghost var before: seq<Menu>, s: Shape := menus, shape;
      ghost var count := if hideCount then 0 else 1;
      EntersNew(le, menus, s, hideCount, m, position, name);
      RowMembers(menus[m], position, Group(name, 0, |menus|));
      assert IsGroup(InsertAt(menus[m], position, Group(name, 0, |menus|))[position], name, |menus|);
      var at;
      submenu, at := AddGroup(m, name, if position == |menus[m]| then -1 else position);
      shape := Hang(s, m, name);
      if !hideCount {
        CountNew(before, m, position, name);
        IncreaseGroupCount(m, at);
      }
      assert menus == WithMenu(before, m, position, name, count);
    }

    /** One step of the descent: into the group of that name, made in its place if there is none. */
    method EnterGroup(m: nat, name: string) returns (submenu: nat)
      requires Sound(Some(m)) && m < |menus|
      modifies this`menus, this`shape
      ensures Sound(Some(submenu)) && submenu < |menus|
      ensures Grows(old(shape), shape) && shape.home == old(shape).home
      ensures PathOf(shape, submenu) == PathOf(old(shape), m) + [name]
    {
      var found, at := Scan(m, name);
      ghost var s := shape;
      if found {
        submenu := EnterExisting(m, at);
        assert Hangs(menus, shape, submenu);
      } else {
        submenu := EnterNew(m, name, at);
      }
      PathGrows(s, shape, m);
    }

    /** The place of an item among the items of a menu. */
    method PlaceItem(m: nat, item: Item)
      requires Sound(Some(m)) && m < |menus| && item !in shape.home
      modifies this`menus, this`shape
      ensures Valid() && shape == old(shape).(home := old(shape).home[item := m])
    {
      var at := FindPlace(m, item.name);
      ItemArrives(le, menus, shape, hideCount, m, at, item);
      menus := menus[m := menus[m][..at] + [Leaf(item)] + menus[m][at..]];
      shape := shape.(home := shape.home[item := m]);
    }

    method FindPlace(m: nat, name: string) returns (at: nat)
      requires m < |menus|
      ensures StopsForItem(le, menus[m], at, name)
    {
      at := 0;
      while at < |menus[m]| && (menus[m][at].Group? || !le(name, menus[m][at].item.name))
        invariant at <= |menus[m]|
        invariant forall j :: 0 <= j < at && menus[m][j].Leaf? ==> !le(name, menus[m][j].item.name)
      {
        at := at + 1;
      }
    }

    /** Walks down the groups of a group string. */
    method Descend(group: Option<string>) returns (submenu: nat)
      requires Valid()
      modifies this`menus, this`shape
      ensures Sound(Some(submenu)) && submenu < |menus|
      ensures Grows(old(shape), shape) && shape.home == old(shape).home
      ensures PathOf(shape, submenu) == MenuPath(group)
    {
      submenu := 0;
      var p := group;
      NothingOpen(menus, shape);
      while p.Some? && p.value != "" && p.value[0] != '/'
        invariant Sound(Some(submenu)) && submenu < |menus|
        invariant Grows(old(shape), shape) && shape.home == old(shape).home
        invariant PathOf(shape, submenu) + MenuPath(p) == MenuPath(group)
        decreases if p.None? then 0 else |p.value| + 1
      {
        var k := IndexOf(p.value, '/');
        var next := if k < |p.value| then Some(p.value[k + 1..]) else None;
        MenuPathStep(PathOf(shape, submenu), p.value, next);
        submenu := EnterGroup(submenu, p.value[..k]);
        p := next;
      }
    }

    /** Files an item under the groups of its group string. */
    method AddItem(item: Item)
      requires Valid() && item !in shape.home
      modifies this`menus, this`shape
      ensures Valid() && Grows(old(shape), shape)
      ensures shape.home.Keys == old(shape).home.Keys + {item}
      ensures shape.home[item] < |menus| && PathOf(shape, shape.home[item]) == MenuPath(item.group)
    {
      var submenu := Descend(item.group);
      ghost var s := shape;
      PlaceItem(submenu, item);
      PathGrows(s, shape, submenu);
    }

    /** The items of all readable profiles, in the order the directory gives them. */
    method Populate(profiles: seq<Item>)
      requires Valid() && Distinct(profiles) && forall x :: x in profiles ==> x !in shape.home
      modifies this`menus, this`shape
      ensures Valid() && Grows(old(shape), shape)
      ensures shape.home.Keys == old(shape).home.Keys + set x | x in profiles
      ensures Filed(shape, profiles)
    {
      assert profiles[..0] == [];
      for n := 0 to |profiles|
        invariant Valid() && Populated(old(shape), shape, profiles[..n])
      {
        ghost var s, done := shape, profiles[..n];
        assert profiles[..n + 1] == done + [profiles[n]];
        assert profiles[n] !in done && profiles[n] in profiles;
        AddItem(profiles[n]);
        PopulatedOneMore(old(shape), s, shape, done, profiles[n]);
      }
      assert profiles[..|profiles|] == profiles;
    }
  }

  /** Each of these items is below exactly the groups its group string names. */
  ghost predicate Filed(s: Shape, items: seq<Item>) {
    forall x :: x in items ==>
      x in s.home && s.home[x] < |s.parent| == |s.title| && PathOf(s, s.home[x]) == MenuPath(x.group)
  }

  /** These items were filed, and nothing else changed its place. */
  ghost predicate Populated(was: Shape, s: Shape, items: seq<Item>) {
    Grows(was, s) && s.home.Keys == was.home.Keys + (set x | x in items) && Filed(s, items)
  }

  lemma PopulatedOneMore(was: Shape, s: Shape, t: Shape, items: seq<Item>, item: Item)
    requires Populated(was, s, items) && Grows(s, t) && t.home.Keys == s.home.Keys + {item}
    requires |s.parent| == |s.title| && |t.parent| == |t.title|
    requires t.home[item] < |t.parent| && PathOf(t, t.home[item]) == MenuPath(item.group)
    ensures Populated(was, t, items + [item])
  {
    FiledOneMore(s, t, items, item);
  }

  lemma FiledOneMore(s: Shape, t: Shape, items: seq<Item>, item: Item)
    requires Filed(s, items) && Grows(s, t) && |s.parent| == |s.title| && |t.parent| == |t.title|
    requires item in t.home && t.home[item] < |t.parent| && PathOf(t, t.home[item]) == MenuPath(item.group)
    ensures Filed(t, items + [item])
  {
    forall x | x in items ensures PathOf(t, t.home[x]) == MenuPath(x.group) {
      PathGrows(s, t, s.home[x]);
    }
  }

  lemma MenuPathStep(path: seq<string>, group: string, rest: Option<string>)
    requires group != "" && group[0] != '/'
    requires rest == var k := IndexOf(group, '/'); if k < |group| then Some(group[k + 1..]) else None
    ensures path + MenuPath(Some(group)) == path + [group[..IndexOf(group, '/')]] + MenuPath(rest)
  {
    var k := IndexOf(group, '/');
    var first, below := group[..k], MenuPath(rest);
    assert MenuPath(Some(group)) == [first] + below;
    assert path + ([first] + below) == path + [first] + below;
  }

  /** No group has the applet menu itself below it. */
  lemma NothingOpen(menus: seq<Menu>, s: Shape)
    requires Linked(menus, s)
    ensures Counted(menus, s, None) ==> Counted(menus, s, Some(0))
  {
    forall m, i | 0 <= m < |menus| && 0 <= i < |menus[m]| && menus[m][i].Group?
      ensures !Within(s.parent, menus[m][i].menu, 0)
    {
      assert EntryLinked(menus, s, m, menus[m][i]);
    }
  }

  // ---------------------------------------------------------------- what the finished menu shows

  /** Groups come before items, no two groups of a menu have the same name, and both kinds are in collation
      order. */
  lemma MenuOrder(le: Collation, menus: seq<Menu>, s: Shape, hidden: bool, m: nat, i: nat, j: nat)
    requires InPlace(le, menus, s, hidden, None) && m < |menus| && i < j < |menus[m]|
    ensures var a, b := menus[m][i], menus[m][j];
      && (a.Leaf? ==> b.Leaf? && le(a.item.name, b.item.name))
      && (b.Group? ==> a.Group? && le(a.name, b.name) && a.name != b.name)
  {
    assert InOrder(le, menus[m][i], menus[m][j]);
  }

  /** A menu is known by its path. */
  lemma {:induction false} MenusDiffer(le: Collation, menus: seq<Menu>, s: Shape, a: nat, b: nat)
    requires Linked(menus, s) && AllOrdered(le, menus) && a < |menus| && b < |menus|
    requires PathOf(s, a) == PathOf(s, b)
    ensures a == b
    decreases a
  {
    assert a > 0 ==> Hangs(menus, s, a);
    assert b > 0 ==> Hangs(menus, s, b);
    if a > 0 && b > 0 {
      var p, q := PathOf(s, s.parent[a]), PathOf(s, s.parent[b]);
      assert PathOf(s, a)[..|p|] == p && PathOf(s, b)[..|q|] == q;
      MenusDiffer(le, menus, s, s.parent[a], s.parent[b]);
      var m := s.parent[a];
      var i :| 0 <= i < |menus[m]| && IsGroup(menus[m][i], s.title[a], a);
      var j :| 0 <= j < |menus[m]| && IsGroup(menus[m][j], s.title[b], b);
      assert s.title[a] == PathOf(s, a)[|p|] == s.title[b];
      NamesDiffer(le, menus[m], i, j);
    }
  }

  /** A menu lies below another exactly when its path goes on from the other's. */
  lemma {:induction false} WithinIsPrefix(le: Collation, menus: seq<Menu>, s: Shape, a: nat, d: nat)
    requires Linked(menus, s) && AllOrdered(le, menus) && a < |menus| && d < |menus|
    ensures Within(s.parent, a, d) <==> PathOf(s, a) <= PathOf(s, d)
    decreases d
  {
    var path := PathOf(s, a);
    if d > 0 {
      assert Hangs(menus, s, d);
      var p := s.parent[d];
      WithinIsPrefix(le, menus, s, a, p);
      assert PathOf(s, d) == PathOf(s, p) + [s.title[d]];
      if path <= PathOf(s, d) {
        if |path| == |PathOf(s, d)| {
          MenusDiffer(le, menus, s, a, d);
        } else {
          assert path == PathOf(s, d)[..|path|] == PathOf(s, p)[..|path|];
          assert a <= p by { WithinIsBelow(s.parent, a, p); }
        }
      }
    } else if path <= PathOf(s, d) {
      MenusDiffer(le, menus, s, a, d);
    }
  }

  lemma {:induction false} WithinIsBelow(parent: seq<nat>, a: nat, d: nat)
    requires Within(parent, a, d)
    ensures a <= d
  {
  }

  lemma ItemsBelow(le: Collation, menus: seq<Menu>, s: Shape, c: nat)
    requires Linked(menus, s) && AllOrdered(le, menus) && c < |menus|
    requires forall x :: x in s.home ==> PathOf(s, s.home[x]) == MenuPath(x.group)
    ensures ItemsWithin(s, c) == set x | x in s.home && PathOf(s, c) <= MenuPath(x.group)
  {
    forall x | x in s.home ensures Within(s.parent, c, s.home[x]) <==> PathOf(s, c) <= MenuPath(x.group) {
      WithinIsPrefix(le, menus, s, c, s.home[x]);
    }
  }

  lemma GroupPath(menus: seq<Menu>, s: Shape, m: nat, i: nat)
    requires Linked(menus, s) && m < |menus| && i < |menus[m]| && menus[m][i].Group?
    ensures 0 < menus[m][i].menu < |menus| && PathOf(s, menus[m][i].menu) == PathOf(s, m) + [menus[m][i].name]
  {
    assert EntryLinked(menus, s, m, menus[m][i]) && Hangs(menus, s, menus[m][i].menu);
  }

  /** In a menu filled from profiles each group shows how many profiles name it or a group below it, and there is
      at least one; its path is that of the menu it is in and its own name. */
  lemma CountIsProfiles(le: Collation, menus: seq<Menu>, s: Shape, m: nat, i: nat)
    requires InPlace(le, menus, s, false, None)
    requires forall x :: x in s.home ==> PathOf(s, s.home[x]) == MenuPath(x.group)
    requires m < |menus| && i < |menus[m]| && menus[m][i].Group?
    ensures var e := menus[m][i];
      && PathOf(s, e.menu) == PathOf(s, m) + [e.name]
      && e.count == |set x | x in s.home && PathOf(s, e.menu) <= MenuPath(x.group)| > 0
  {
    GroupPath(menus, s, m, i);
    ItemsBelow(le, menus, s, menus[m][i].menu);
  }
}
