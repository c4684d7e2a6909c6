/** The message panels of a tab's page. A page is a GtkBox: its children in order, of which some are message
    panels. The page and all above it are taken to be visible, so a panel is visible when it is not hidden. */
module MessagePanels {
  import opened Basics

  datatype Child = Panel(id: nat, visible: bool) | Other(id: nat)

  type Children = seq<Child>

  predicate Shown(c: Child) {
    c.Panel? && c.visible
  }

  function Visible(cs: Children): nat {
    if cs == [] then 0 else (if Shown(cs[0]) then 1 else 0) + Visible(cs[1..])
  }

  function Panels(cs: Children): nat {
    if cs == [] then 0 else (if cs[0].Panel? then 1 else 0) + Panels(cs[1..])
  }

  /** Exactly one panel is visible if there are any, and none otherwise. */
  predicate OneVisible(cs: Children) {
    Visible(cs) == if Panels(cs) == 0 then 0 else 1
  }

  function Hidden(c: Child): Child {
    if c.Panel? then Panel(c.id, false) else c
  }

  function AllHidden(cs: Children): (r: Children)
    ensures |r| == |cs| && forall i :: 0 <= i < |cs| ==> r[i] == Hidden(cs[i])
  {
    seq(|cs|, i requires 0 <= i < |cs| => Hidden(cs[i]))
  }

  function PanelsOf(cs: Children): (r: Children)
    ensures forall c :: c in r ==> c.Panel?
  {
    if cs == [] then [] else (if cs[0].Panel? then [cs[0]] else []) + PanelsOf(cs[1..])
  }

  function OthersOf(cs: Children): (r: Children)
    ensures forall c :: c in r ==> !c.Panel?
  {
    if cs == [] then [] else (if cs[0].Panel? then [] else [cs[0]]) + OthersOf(cs[1..])
  }

  function Reversed<T>(s: seq<T>): (r: seq<T>)
    ensures |r| == |s| && forall i :: 0 <= i < |s| ==> r[i] == s[|s| - 1 - i]
  {
    if s == [] then [] else Reversed(s[1..]) + [s[0]]
  }

  // ---------------------------------------------------------------- what the operations keep

  lemma Assoc(a: Children, b: Children, c: Children)
    ensures a + (b + c) == a + b + c
  {
  }

  lemma {:induction false} ConcatPanels(cs: Children, ds: Children)
    ensures PanelsOf(cs + ds) == PanelsOf(cs) + PanelsOf(ds)
  {
    if cs == [] {
      assert cs + ds == ds;
    } else {
      assert (cs + ds)[1..] == cs[1..] + ds;
      ConcatPanels(cs[1..], ds);
      Assoc(if cs[0].Panel? then [cs[0]] else [], PanelsOf(cs[1..]), PanelsOf(ds));
    }
  }

  lemma {:induction false} ConcatOthers(cs: Children, ds: Children)
    ensures OthersOf(cs + ds) == OthersOf(cs) + OthersOf(ds)
  {
    if cs == [] {
      assert cs + ds == ds;
    } else {
      assert (cs + ds)[1..] == cs[1..] + ds;
      ConcatOthers(cs[1..], ds);
      Assoc(if cs[0].Panel? then [] else [cs[0]], OthersOf(cs[1..]), OthersOf(ds));
    }
  }

  lemma {:induction false} ConcatCounts(cs: Children, ds: Children)
    ensures Panels(cs + ds) == Panels(cs) + Panels(ds) && Visible(cs + ds) == Visible(cs) + Visible(ds)
  {
    if cs == [] {
      assert cs + ds == ds;
    } else {
      assert (cs + ds)[1..] == cs[1..] + ds;
      ConcatCounts(cs[1..], ds);
    }
  }

  lemma {:induction false} HiddenCounts(cs: Children)
    ensures Panels(AllHidden(cs)) == Panels(cs) && Visible(AllHidden(cs)) == 0
  {
    if cs != [] {
      assert AllHidden(cs)[1..] == AllHidden(cs[1..]);
      HiddenCounts(cs[1..]);
    }
  }

  lemma {:induction false} PanelsOfCounts(cs: Children)
    ensures Panels(PanelsOf(cs)) == Panels(cs) && Visible(PanelsOf(cs)) == Visible(cs)
    ensures Panels(OthersOf(cs)) == Visible(OthersOf(cs)) == 0
  {
    if cs != [] {
      PanelsOfCounts(cs[1..]);
      SingleCounts(cs[0]);
      ConcatCounts(if cs[0].Panel? then [cs[0]] else [], PanelsOf(cs[1..]));
      ConcatCounts(if cs[0].Panel? then [] else [cs[0]], OthersOf(cs[1..]));
    }
  }

  lemma SingleCounts(c: Child)
    ensures Panels([c]) == (if c.Panel? then 1 else 0) && Visible([c]) == if Shown(c) then 1 else 0
    ensures PanelsOf([c]) == (if c.Panel? then [c] else []) && OthersOf([c]) == if c.Panel? then [] else [c]
  {
    assert [c][1..] == [];
  }

  lemma {:induction false} ReversedCounts(cs: Children)
    ensures Panels(Reversed(cs)) == Panels(cs) && Visible(Reversed(cs)) == Visible(cs)
  {
    if cs != [] {
      ReversedCounts(cs[1..]);
      SingleCounts(cs[0]);
      ConcatCounts(Reversed(cs[1..]), [cs[0]]);
    }
  }

  lemma {:induction false} NoPanels(cs: Children)
    requires forall i :: 0 <= i < |cs| ==> !cs[i].Panel?
    ensures Panels(cs) == Visible(cs) == 0
  {
    if cs != [] {
      assert forall i :: 0 <= i < |cs[1..]| ==> cs[1..][i] == cs[i + 1];
      NoPanels(cs[1..]);
    }
  }

  lemma ShowKeeps(cs: Children, id: nat)
    ensures OneVisible([Panel(id, true)] + AllHidden(cs))
  {
    HiddenCounts(cs);
    SingleCounts(Panel(id, true));
    ConcatCounts([Panel(id, true)], AllHidden(cs));
  }

  /** The counts around the child at position p, and with another child in its place or none. */
  lemma CountsAround(cs: Children, p: nat, c: Child)
    requires p < |cs|
    ensures Panels(cs) == Panels(RemoveAt(cs, p)) + (if cs[p].Panel? then 1 else 0)
    ensures Visible(cs) == Visible(RemoveAt(cs, p)) + if Shown(cs[p]) then 1 else 0
    ensures Panels(cs[p := c]) == Panels(RemoveAt(cs, p)) + (if c.Panel? then 1 else 0)
    ensures Visible(cs[p := c]) == Visible(RemoveAt(cs, p)) + if Shown(c) then 1 else 0
  {
    var before, after := cs[..p], cs[p + 1..];
    assert cs == before + [cs[p]] + after && cs[p := c] == before + [c] + after;
    SingleCounts(cs[p]);
    SingleCounts(c);
    ConcatCounts(before + [cs[p]], after);
    ConcatCounts(before, [cs[p]]);
    ConcatCounts(before + [c], after);
    ConcatCounts(before, [c]);
    ConcatCounts(before, after);
  }

  /** Removing a panel, and showing the last remaining one if the visible one went. */
  lemma DestroyKeeps(cs: Children, p: nat, last: int)
    requires OneVisible(cs) && p < |cs| && cs[p].Panel?
    requires IsLast(RemoveAt(cs, p), last)
    ensures var r := RemoveAt(cs, p);
      OneVisible(if cs[p].visible && last >= 0 then r[last := Panel(r[last].id, true)] else r)
  {
    var r := RemoveAt(cs, p);
    CountsAround(cs, p, cs[p]);
    if last >= 0 {
      CountsAround(r, last, Panel(r[last].id, true));
    } else {
      NoPanels(r);
    }
  }

  lemma MigrateKeeps(cs: Children, others: Children)
    requires OneVisible(cs) && forall c :: c in others ==> !c.Panel?
    ensures OneVisible(Reversed(PanelsOf(cs)) + others)
  {
    PanelsOfCounts(cs);
    ReversedCounts(PanelsOf(cs));
    NoPanels(others);
    ConcatCounts(Reversed(PanelsOf(cs)), others);
  }

  lemma {:induction false} PanelsOfPanels(ps: Children, others: Children)
    requires (forall c :: c in ps ==> c.Panel?) && (forall c :: c in others ==> !c.Panel?)
    ensures PanelsOf(ps + others) == ps
    decreases |ps| + |others|
  {
    if ps != [] {
      assert (ps + others)[1..] == ps[1..] + others;
      PanelsOfPanels(ps[1..], others);
    } else if others != [] {
      assert (ps + others)[1..] == ps + others[1..];
      PanelsOfPanels(ps, others[1..]);
    }
  }

  /** Moving a page's panels reverses them, so moving them on puts them back in order. */
  lemma MigrateTwice(cs: Children, others: Children, more: Children)
    requires (forall c :: c in others ==> !c.Panel?) && (forall c :: c in more ==> !c.Panel?)
    ensures var once := Reversed(PanelsOf(cs)) + others;
      && PanelsOf(once) == Reversed(PanelsOf(cs))
      && PanelsOf(Reversed(PanelsOf(once)) + more) == PanelsOf(cs)
  {
    var ps := PanelsOf(cs);
    assert forall c :: c in Reversed(ps) ==> c in ps;
    PanelsOfPanels(Reversed(ps), others);
    assert Reversed(Reversed(ps)) == ps;
    PanelsOfPanels(ps, more);
  }

  // ---------------------------------------------------------------- the operations

  datatype Event = Show(id: nat) | Destroy(id: nat) | Migrate

  class Page {
    var children: Children

    constructor (children: Children)
      ensures this.children == children
    {
      this.children := children;
    }

    /** rco_show_message_panel: the panel goes to the top and is the only visible one. */
    method ShowMessagePanel(id: nat)
      modifies this
      ensures OneVisible(children) && children == [Panel(id, true)] + AllHidden(old(children))
    {
      ghost var was := children;
      for i := 0 to |children|
        invariant |children| == |was|
        invariant forall j :: 0 <= j < |was| ==> children[j] == if j < i then Hidden(was[j]) else was[j]
      {
        if children[i].Panel? {
          children := children[i := children[i].(visible := false)];
        }
      }
      assert children == AllHidden(was);
      children := [Panel(id, true)] + children;
      ShowKeeps(was, id);
    }

    /** rco_destroy_message_panel: if the panel was visible the last remaining one is shown; asking for a panel
        that is not there changes nothing. */
    method DestroyMessagePanel(id: nat)
      requires OneVisible(children)
      modifies this
      ensures OneVisible(children)
      ensures (forall v :: Panel(id, v) !in old(children)) ==> children == old(children)
      ensures forall p :: 0 <= p < |old(children)| && IsFirst(old(children), p, id) ==>
                AfterDestroy(old(children), p, children)
    {
      ghost var was := children;
      var p := Find(id);
      if p == |children| {
        return;
      }
      OnlyFirst(was, p, id);
      var wasVisible := children[p].visible;
      children := RemoveAt(children, p);
      var last := LastPanel();
      DestroyKeeps(was, p, last);
      DestroyLeaves(was, p, last);
      if wasVisible && last >= 0 {
        children := children[last := children[last].(visible := true)];
      }
    }

    method Find(id: nat) returns (p: nat)
      ensures p < |children| ==> IsFirst(children, p, id)
      ensures p >= |children| ==> p == |children| && forall i :: 0 <= i < p ==> !Is(children[i], id)
    {
      p := 0;
      while p < |children| && !Is(children[p], id)
        invariant p <= |children|
        invariant forall i :: 0 <= i < p ==> !Is(children[i], id)
      {
        p := p + 1;
      }
    }

    method LastPanel() returns (last: int)
      ensures IsLast(children, last)
    {
      last := -1;
      for i := 0 to |children|
        invariant -1 <= last < i && (last >= 0 ==> children[last].Panel?)
        invariant forall j :: last < j < i ==> !children[j].Panel?
      {
        if children[i].Panel? {
          last := i;
        }
      }
    }

    /** nb_migrate_message_panels: one after the other, each to the top of the new page. */
    method MigrateMessagePanels(to: Page)
      requires to != this
      modifies this, to
      ensures to.children == Reversed(PanelsOf(old(children))) + old(to.children)
      ensures children == OthersOf(old(children))
    {
      var lst := children;
      ghost var others := to.children;
      MoveStarts(lst, others);
      for i := 0 to |lst|
        invariant Moving(lst, i, others, children, to.children)
      {
        MoveStep(lst, i, others, children, to.children);
        if lst[i].Panel? {
          children := RemoveAt(children, |children| - (|lst| - i));
          to.children := [lst[i]] + to.children;
        }
      }
      assert lst[..|lst|] == lst;
    }

    /** Any run of events on the page of one connection, which moves from page to page. */
    static method Run(first: Page, events: seq<Event>) returns (page: Page)
      requires OneVisible(first.children)
      modifies first
      ensures OneVisible(page.children)
    {
      page := first;
      for n := 0 to |events|
        invariant page == first || fresh(page)
        invariant OneVisible(page.children)
      {
        match events[n] {
          case Show(id) => page.ShowMessagePanel(id);
          case Destroy(id) => page.DestroyMessagePanel(id);
          case Migrate =>
            var next := new Page([Other(n)]);
            MigrateKeeps(page.children, next.children);
            page.MigrateMessagePanels(next);
            page := next;
        }
      }
    }
  }

  predicate Is(c: Child, id: nat) {
    c.Panel? && c.id == id
  }

  ghost predicate IsFirst(cs: Children, p: nat, id: nat) {
    p < |cs| && Is(cs[p], id) && forall i :: 0 <= i < p ==> !Is(cs[i], id)
  }

  lemma OnlyFirst(cs: Children, p: nat, id: nat)
    requires IsFirst(cs, p, id)
    ensures (exists v :: Panel(id, v) in cs) && forall q: nat :: IsFirst(cs, q, id) ==> q == p
  {
    assert Panel(id, cs[p].visible) in cs;
  }

  lemma DestroyLeaves(cs: Children, p: nat, last: int)
    requires p < |cs| && cs[p].Panel? && IsLast(RemoveAt(cs, p), last)
    ensures var r := RemoveAt(cs, p);
      AfterDestroy(cs, p, if cs[p].visible && last >= 0 then r[last := Panel(r[last].id, true)] else r)
  {
  }

  /** The position of the last panel, -1 if there is none. */
  ghost predicate IsLast(cs: Children, last: int) {
    && -1 <= last < |cs| && (last >= 0 ==> cs[last].Panel?)
    && forall i :: last < i < |cs| ==> !cs[i].Panel?
  }

  /** What destroying the panel at position p comes to: the others stay in order, and are as visible as before
      except that the last of them is shown if the visible one is gone. */
  ghost predicate AfterDestroy(was: Children, p: nat, now: Children)
    requires p < |was| && was[p].Panel?
  {
    var rest := RemoveAt(was, p);
    && |now| == |rest|
    && forall i :: 0 <= i < |rest| ==>
         var last := rest[i].Panel? && forall j :: i < j < |rest| ==> !rest[j].Panel?;
         now[i] == if was[p].visible && last then Panel(rest[i].id, true) else rest[i]
  }

  lemma {:induction false} NoneShown(cs: Children)
    requires Visible(cs) == 0
    ensures forall i :: 0 <= i < |cs| ==> !Shown(cs[i])
  {
    if cs != [] {
      NoneShown(cs[1..]);
      assert forall i :: 1 <= i < |cs| ==> cs[i] == cs[1..][i - 1];
    }
  }

  /** Once the visible panel is destroyed, a panel shows exactly if no other panel comes after it. */
  lemma LastIsShown(was: Children, p: nat, now: Children)
    requires OneVisible(was) && p < |was| && Shown(was[p]) && AfterDestroy(was, p, now)
    ensures forall i :: 0 <= i < |now| ==>
              (Shown(now[i]) <==> now[i].Panel? && forall j :: i < j < |now| ==> !now[j].Panel?)
  {
    var rest := RemoveAt(was, p);
    CountsAround(was, p, was[p]);
    NoneShown(rest);
    assert forall i :: 0 <= i < |rest| ==> (now[i].Panel? <==> rest[i].Panel?);
    forall i | 0 <= i < |now|
      ensures Shown(now[i]) <==> now[i].Panel? && forall j :: i < j < |now| ==> !now[j].Panel?
    {
      assert (forall j :: i < j < |now| ==> !now[j].Panel?) <==> (forall j :: i < j < |rest| ==> !rest[j].Panel?);
    }
  }

  /** The pages once the first i children were looked at. */
  ghost predicate Moving(lst: Children, i: nat, others: Children, kept: Children, moved: Children) {
    i <= |lst| && kept == OthersOf(lst[..i]) + lst[i..] && moved == Reversed(PanelsOf(lst[..i])) + others
  }

  lemma MoveStarts(lst: Children, others: Children)
    ensures Moving(lst, 0, others, lst, others)
  {
    assert lst[..0] == [] && OthersOf([]) + lst == lst && Reversed(PanelsOf([])) + others == others;
  }

  lemma MoveStep(lst: Children, i: nat, others: Children, kept: Children, moved: Children)
    requires i < |lst| && Moving(lst, i, others, kept, moved)
    ensures 0 <= |kept| - (|lst| - i) < |kept|
    ensures if lst[i].Panel? then Moving(lst, i + 1, others, RemoveAt(kept, |kept| - (|lst| - i)), [lst[i]] + moved)
            else Moving(lst, i + 1, others, kept, moved)
  {
    KeptStep(lst, i);
    MovedStep(lst, i, others);
  }

  /** One round of the migration loop, on the old page and on the new one. */
  lemma KeptStep(lst: Children, i: nat)
    requires i < |lst|
    ensures var kept, next := OthersOf(lst[..i]) + lst[i..], OthersOf(lst[..i + 1]) + lst[i + 1..];
      next == if lst[i].Panel? then RemoveAt(kept, |OthersOf(lst[..i])|) else kept
  {
    var c, front, back := lst[i], lst[..i], lst[i + 1..];
    OthersSnoc(lst, i);
    assert lst[i..] == [c] + back;
    TakeOut(OthersOf(front), c, back);
  }

  lemma MovedStep(lst: Children, i: nat, others: Children)
    requires i < |lst|
    ensures var moved, next := Reversed(PanelsOf(lst[..i])) + others, Reversed(PanelsOf(lst[..i + 1])) + others;
      next == if lst[i].Panel? then [lst[i]] + moved else moved
  {
    OthersSnoc(lst, i);
    Turn(PanelsOf(lst[..i]), lst[i], others);
  }

  lemma OthersSnoc(lst: Children, i: nat)
    requires i < |lst|
    ensures OthersOf(lst[..i + 1]) == if lst[i].Panel? then OthersOf(lst[..i]) else OthersOf(lst[..i]) + [lst[i]]
    ensures PanelsOf(lst[..i + 1]) == if lst[i].Panel? then PanelsOf(lst[..i]) + [lst[i]] else PanelsOf(lst[..i])
  {
    var c, front := lst[i], lst[..i];
    ConcatPanels(front, [c]);
    ConcatOthers(front, [c]);
    SingleCounts(c);
    assert lst[..i + 1] == front + [c];
  }

  lemma TakeOut(front: Children, c: Child, back: Children)
    ensures RemoveAt(front + ([c] + back), |front|) == front + back
    ensures front + [c] + back == front + ([c] + back)
  {
  }

  lemma Turn(ps: Children, c: Child, others: Children)
    ensures Reversed(ps + [c]) + others == [c] + (Reversed(ps) + others)
  {
    assert Reversed(ps + [c]) == [c] + Reversed(ps);
  }
}
