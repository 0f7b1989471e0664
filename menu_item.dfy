/** The loader itself, step by step: it allocates menu items, fills their
    property maps through set_props and appends the children it manages to
    build. Each method is proved to compute what MenuSpec describes. */
module MenuItems {
  import opened Json
  import opened Variants
  import opened MenuSpec

  /** The process-wide counter behind dbusmenu_menuitem_new, made an explicit
      object: it hands out its current value and moves past it. */
  class IdAllocator {
    var next: nat

    constructor (start: nat)
      ensures next == start
    {
      next := start;
    }

    method Allocate() returns (id: nat)
      modifies this
      ensures id == old(next) && next == old(next) + 1
    {
      id := next;
      next := next + 1;
    }
  }

  /** A DbusmenuMenuitem: an id, a property map and the children it owns.
      `Value` is the item tree as a value, `Repr` the objects it is made of. */
  class MenuItem {
    var id: int
    var props: map<string, Variant>
    var children: seq<MenuItem>
    ghost var Repr: set<object>
    ghost var Value: Item

    ghost predicate Valid()
      reads this, Repr
      decreases Repr
    {
      && this in Repr
      && Value.id == id && Value.props == props
      && |Value.children| == |children|
      && (forall i :: 0 <= i < |children| ==>
           && children[i] in Repr && children[i].Repr <= Repr && this !in children[i].Repr
           && children[i].Valid() && children[i].Value == Value.children[i])
      && (forall i, j :: 0 <= i < j < |children| ==> children[i].Repr !! children[j].Repr)
    }

    /** dbusmenu_menuitem_new_with_id; dbusmenu_menuitem_new is this with an
        id taken from the IdAllocator. A new item has no properties and no
        children. */
    constructor (id: int)
      ensures Valid() && fresh(Repr)
      ensures Value == Item(id, map[], [])
    {
      this.id := id;
      props := map[];
      children := [];
      Repr := {this};
      Value := Item(id, map[], []);
    }

    /** dbusmenu_menuitem_property_set_variant: stores `v` under `name`,
        replacing any earlier value. */
    method SetProperty(name: string, v: Variant)
      requires Valid()
      modifies this
      ensures Valid() && Repr == old(Repr)
      ensures Value == old(Value).(props := old(Value.props)[name := v])
    {
      props := props[name := v];
      Value := Value.(props := props);
    }

    /** dbusmenu_menuitem_child_append: `child` becomes the last child. */
    method ChildAppend(child: MenuItem)
      requires Valid() && child.Valid() && child.Repr !! Repr
      modifies this
      ensures Valid() && Repr == old(Repr) + child.Repr
      ensures Value == old(Value).(children := old(Value.children) + [child.Value])
    {
      children := children + [child];
      Repr := Repr + child.Repr;
      Value := Value.(children := Value.children + [child.Value]);
    }
  }

  /** set_props: every member other than "id" and "submenu" whose value
      converts is stored on `mi` under the member's name. */
  method SetProps(mi: MenuItem, ms: seq<(string, Node)>)
    requires mi.Valid() && PropsSupported(ms)
    modifies mi
    ensures mi.Valid() && mi.Repr == old(mi.Repr)
    ensures mi.Value == old(mi.Value).(props := SetPropsSpec(old(mi.Value.props), ms))
  {
    var i := 0;
    while i < |ms|
      invariant 0 <= i <= |ms|
      invariant mi.Valid() && mi.Repr == old(mi.Repr)
      invariant mi.Value == old(mi.Value).(props := SetPropsSpec(old(mi.Value.props), ms[..i]))
    {
      var member := ms[i];
      assert ms[..i + 1][..i] == ms[..i];
      if member.0 != "id" && member.0 != "submenu" {
        var variant := Convert(member.1);
        if variant.Some? {
          mi.SetProperty(member.0, variant.value);
        }
      }
      i := i + 1;
    }
    assert ms[..|ms|] == ms;
  }

  /** dbusmenu_json_build_from_node: null unless `n` is an object whose "id",
      if present, is a value node; otherwise the item with its properties and
      the children built from a "submenu" array. */
  method BuildFromNode(n: Node, alloc: IdAllocator) returns (mi: MenuItem?)
    requires BuildSupported(n)
    modifies alloc
    decreases n, 1
    ensures alloc.next == Build(n, old(alloc.next)).next
    ensures mi == null <==> Build(n, old(alloc.next)).item.None?
    ensures mi != null ==> mi.Valid() && fresh(mi.Repr) && Build(n, old(alloc.next)).item == Some(mi.Value)
  {
    if !n.Object? {
      return null;
    }
    var idAt := Find(n.members, "id");
    if idAt.Some? && !n.members[idAt.value].1.Value? {
      BuildRules(n, alloc.next);
      return null;
    }
    ghost var start := alloc.next;
    var local := NewItem(n, alloc);
    AttachSubmenu(local, n, start, alloc);
    return local;
  }

  /** The first half of dbusmenu_json_build_from_node: the new item with its
      id, explicit or allocated, and the properties set_props stores. */
  method NewItem(n: Node, alloc: IdAllocator) returns (mi: MenuItem)
    requires Builds(n) && BuildSupported(n)
    modifies alloc
    ensures mi.Valid() && fresh(mi.Repr)
    ensures mi.Value == Build(n, old(alloc.next)).item.value.(children := [])
    ensures alloc.next == if Find(n.members, "id").Some? then old(alloc.next) else old(alloc.next) + 1
  {
    BuildRules(n, alloc.next);
    var idAt := Find(n.members, "id");
    if idAt.Some? {
      mi := new MenuItem(IdOf(n.members[idAt.value].1.v) as int);
    } else {
      var id := alloc.Allocate();
      mi := new MenuItem(id);
    }
    SetProps(mi, n.members);
  }

  /** The second half of dbusmenu_json_build_from_node: when "submenu" is an
      array, the children built from its elements are appended to `mi`;
      `start` is the counter before the item's own id was allocated. */
  method AttachSubmenu(mi: MenuItem, n: Node, ghost start: nat, alloc: IdAllocator)
    requires Builds(n) && BuildSupported(n)
    requires mi.Valid() && alloc !in mi.Repr
    requires mi.Value == Build(n, start).item.value.(children := [])
    requires alloc.next == if Find(n.members, "id").Some? then start else start + 1
    modifies mi, alloc
    decreases n, 0
    ensures mi.Valid() && fresh(mi.Repr - old(mi.Repr)) && alloc !in mi.Repr
    ensures Build(n, start).item == Some(mi.Value) && alloc.next == Build(n, start).next
  {
    BuildRules(n, start);
    var subAt := Find(n.members, "submenu");
    if subAt.Some? {
      var sub := n.members[subAt.value].1;
      if sub.Array? {
        assert sub < n.members[subAt.value];
        AppendBuiltChildren(mi, sub.elements, alloc);
        assert [] + Build(n, start).item.value.children == Build(n, start).item.value.children;
      }
    }
  }

  /** The loop of dbusmenu_json_build_from_node over a "submenu" array: each
      element is built in array order and appended to `parent` when it
      builds; an element that does not build is skipped. */
  method AppendBuiltChildren(parent: MenuItem, es: seq<Node>, alloc: IdAllocator)
    requires parent.Valid() && alloc !in parent.Repr
    requires forall i :: 0 <= i < |es| ==> BuildSupported(es[i])
    modifies parent, alloc
    decreases es, 0
    ensures parent.Valid() && fresh(parent.Repr - old(parent.Repr)) && alloc !in parent.Repr
    ensures parent.Value ==
      old(parent.Value).(children := old(parent.Value.children) + BuildChildren(es, old(alloc.next)).0)
    ensures alloc.next == BuildChildren(es, old(alloc.next)).1
  {
    ghost var start, before := alloc.next, parent.Value;
    var count := 0;
    assert before.children + [] == before.children;
    while count < |es|
      invariant 0 <= count <= |es|
      invariant parent.Valid() && fresh(parent.Repr - old(parent.Repr)) && alloc !in parent.Repr
      invariant AppendedUpTo(parent.Value, alloc.next, before, es, start, count)
    {
      AppendElement(parent, es, count, start, before, alloc);
      count := count + 1;
    }
    assert es[..|es|] == es;
  }

  /** `value` and `next` are what `before` and the counter `start` become once
      the first `count` elements of a submenu array have been handled. */
  ghost predicate AppendedUpTo(value: Item, next: nat, before: Item, es: seq<Node>, start: nat, count: nat)
    requires count <= |es| && forall i :: 0 <= i < |es| ==> BuildSupported(es[i])
  {
    var r := BuildChildren(es[..count], start);
    value == before.(children := before.children + r.0) && next == r.1
  }

  /** One pass of the submenu loop: element `count` is built and, if it
      builds, appended to `parent`. */
  method AppendElement(parent: MenuItem, es: seq<Node>, count: nat, ghost start: nat, ghost before: Item, alloc: IdAllocator)
    requires count < |es| && forall i :: 0 <= i < |es| ==> BuildSupported(es[i])
    requires parent.Valid() && alloc !in parent.Repr
    requires AppendedUpTo(parent.Value, alloc.next, before, es, start, count)
    modifies parent, alloc
    decreases es[count], 2
    ensures parent.Valid() && fresh(parent.Repr - old(parent.Repr)) && alloc !in parent.Repr
    ensures AppendedUpTo(parent.Value, alloc.next, before, es, start, count + 1)
  {
    BuildChildrenStep(es, start, count);
    ghost var done := BuildChildren(es[..count], start).0;
    ghost var b := Build(es[count], alloc.next);
    var child := BuildFromNode(es[count], alloc);
    if child != null {
      parent.ChildAppend(child);
      assert before.children + done + [b.item.value] == before.children + (done + [b.item.value]);
    }
  }

  /** What json_parser_load_from_file leaves: the root node, or the error. */
  datatype Parsed = Root(root: Node) | ParseError(message: string)

  /** dbusmenu_json_build_from_file after parsing: null on a parse error or a
      root that is not an object, else the tree built from the root. */
  method BuildFromFile(parsed: Parsed, alloc: IdAllocator) returns (mi: MenuItem?)
    requires parsed.Root? ==> BuildSupported(parsed.root)
    modifies alloc
    ensures parsed.ParseError? || !parsed.root.Object? ==> mi == null && alloc.next == old(alloc.next)
    ensures parsed.Root? ==> alloc.next == Build(parsed.root, old(alloc.next)).next
    ensures parsed.Root? ==> (mi == null <==> Build(parsed.root, old(alloc.next)).item.None?)
    ensures mi != null ==>
      parsed.Root? && mi.Valid() && fresh(mi.Repr) && Build(parsed.root, old(alloc.next)).item == Some(mi.Value)
  {
    if parsed.ParseError? {
      return null;
    }
    if !parsed.root.Object? {
      return null;
    }
    mi := BuildFromNode(parsed.root, alloc);
  }
}
