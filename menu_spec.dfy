/** What dbusmenu_json_build_from_node computes, as functions on values: the
    menu item tree it builds from a JSON object and the value of the
    process-wide id counter afterwards. The imperative loader in MenuItems is
    proved to compute exactly this. */
module MenuSpec {
  import opened Json
  import opened Variants

  /** A menu item as a value: its id, its property map and its children. */
  datatype Item = Item(id: int, props: map<string, Variant>, children: seq<Item>)

  /** The result of building one node: the item, if any, and the id counter. */
  datatype Built = Built(item: Option<Item>, next: nat)

  /** The two member names the loader treats as structure, not as data. */
  predicate IsReserved(name: string)
  {
    name == "id" || name == "submenu"
  }

  /** Every member that set_props hands to node2variant has a known type. */
  predicate PropsSupported(ms: seq<(string, Node)>)
  {
    forall i :: 0 <= i < |ms| && !IsReserved(ms[i].0) ==> Supported(ms[i].1)
  }

  /** The names set_props stores: those of the non-reserved members whose
      value converts (a value converts exactly when it is not null). */
  function StoredNames(ms: seq<(string, Node)>): set<string>
  {
    set i | 0 <= i < |ms| && !IsReserved(ms[i].0) && MemberConverts(ms[i]) :: ms[i].0
  }

  /** The property map after set_props has visited the members of `ms` in
      order, starting from `props`. A recurring name is overwritten. */
  function SetPropsSpec(props: map<string, Variant>, ms: seq<(string, Node)>): (r: map<string, Variant>)
    requires PropsSupported(ms)
    ensures props.Keys <= r.Keys
    ensures ("id" in r <==> "id" in props) && ("submenu" in r <==> "submenu" in props)
  {
    if ms == [] then props
    else
      var before := SetPropsSpec(props, ms[..|ms| - 1]);
      var last := ms[|ms| - 1];
      if IsReserved(last.0) then before
      else match Convert(last.1)
        case None => before
        case Some(v) => before[last.0 := v]
  }

  /** The properties of a freshly created item after set_props. */
  function Props(ms: seq<(string, Node)>): map<string, Variant>
    requires PropsSupported(ms)
  {
    SetPropsSpec(map[], ms)
  }

  /** set_props adds exactly the non-reserved members whose value converts
      and leaves every other entry alone. */
  lemma {:induction false} SetPropsStores(props: map<string, Variant>, ms: seq<(string, Node)>)
    requires PropsSupported(ms)
    ensures SetPropsSpec(props, ms).Keys == props.Keys + StoredNames(ms)
    ensures forall k :: k in props && k !in StoredNames(ms) ==> SetPropsSpec(props, ms)[k] == props[k]
  {
    if ms != [] {
      var init, last := ms[..|ms| - 1], ms[|ms| - 1];
      SetPropsStores(props, init);
      assert forall i :: 0 <= i < |init| ==> init[i] == ms[i];
      assert StoredNames(ms) == StoredNames(init) +
        (if !IsReserved(last.0) && MemberConverts(last) then {last.0} else {});
    }
  }

  /** When member names are unique, as in every json-glib object, set_props
      stores each non-reserved member's converted value under its own name. */
  lemma {:induction false} SetPropsStoresValues(props: map<string, Variant>, ms: seq<(string, Node)>)
    requires PropsSupported(ms) && UniqueNames(ms)
    ensures forall i :: 0 <= i < |ms| && !IsReserved(ms[i].0) && MemberConverts(ms[i]) ==>
      ms[i].0 in SetPropsSpec(props, ms) && SetPropsSpec(props, ms)[ms[i].0] == Convert(ms[i].1).value
  {
    if ms != [] {
      var init, last := ms[..|ms| - 1], ms[|ms| - 1];
      SetPropsStoresValues(props, init);
      assert forall i :: 0 <= i < |init| ==> init[i] == ms[i];
    }
  }

  /** Neither reserved name is ever a property of a built item. */
  lemma PropsExcludeReserved(ms: seq<(string, Node)>)
    requires PropsSupported(ms)
    ensures "id" !in Props(ms) && "submenu" !in Props(ms)
    ensures Props(ms).Keys == StoredNames(ms)
  {
    SetPropsStores(map[], ms);
  }

  /** C's truncation of a double toward zero. */
  function Trunc(d: real): (r: int)
    ensures 0.0 <= d ==> r as real <= d < r as real + 1.0
    ensures d < 0.0 ==> r as real - 1.0 < d <= r as real
  {
    if d >= 0.0 then d.Floor else -((-d).Floor)
  }

  /** json_node_get_int: the integer reading of a value node, which coerces
      doubles and booleans and reads anything else as 0. */
  function GetInt(v: Scalar): (r: int)
    ensures v.Int? ==> r == v.i as int
    ensures v.Int64? ==> r == v.l as int
    ensures v.Double? && 0.0 <= v.d ==> 0 <= r && r as real <= v.d < r as real + 1.0
    ensures v.Double? && v.d < 0.0 ==> r <= 0 && r as real - 1.0 < v.d <= r as real
    ensures v.Float? && 0.0 <= v.f ==> 0 <= r && r as real <= v.f < r as real + 1.0
    ensures v.Float? && v.f < 0.0 ==> r <= 0 && r as real - 1.0 < v.f <= r as real
    ensures v.Boolean? ==> (r == 1 <==> v.b) && (r == 0 <==> !v.b)
    ensures v.Str? || v.Other? ==> r == 0
  {
    match v
    case Int(i) => i as int
    case Int64(l) => l as int
    case Double(d) => Trunc(d)
    case Float(f) => Trunc(f)
    case Boolean(b) => if b then 1 else 0
    case Str(_) => 0
    case Other(_) => 0
  }

  /** The id dbusmenu_menuitem_new_with_id receives: GetInt narrowed to gint. */
  function IdOf(v: Scalar): (r: int32)
    ensures -0x8000_0000 <= GetInt(v) < 0x8000_0000 ==> r as int == GetInt(v)
    ensures (GetInt(v) - r as int) % 0x1_0000_0000 == 0
    ensures v.Int? ==> r as int == v.i as int
    ensures v.Int64? && -0x8000_0000 <= v.l as int < 0x8000_0000 ==> r as int == v.l as int
    ensures (v.Str? || v.Other?) ==> r == 0
    ensures v.Boolean? ==> r as int == (if v.b then 1 else 0)
  {
    Wrap32(GetInt(v))
  }

  /** Whether building `n` gives an item: it is an object whose "id", if
      present, is a value node. */
  predicate Builds(n: Node)
  {
    n.Object? &&
    var idAt := Find(n.members, "id");
    idAt.None? || n.members[idAt.value].1.Value?
  }

  /** Every node the loader hands to node2variant while building `n` has a
      known type: the properties of `n` if it builds, and recursively the
      elements of its "submenu" array. */
  predicate BuildSupported(n: Node)
    decreases n
  {
    match n
    case Object(ms) =>
      !Builds(n) ||
      (PropsSupported(ms) &&
       var subAt := Find(ms, "submenu");
       subAt.Some? && ms[subAt.value].1.Array? ==>
         assert ms[subAt.value].1 < ms[subAt.value];
         var es := ms[subAt.value].1.elements;
         forall j :: 0 <= j < |es| ==> BuildSupported(es[j]))
    case _ => true
  }

  /** dbusmenu_json_build_from_node with the id counter made explicit:
      `next` is the id the next dbusmenu_menuitem_new would hand out. */
  function Build(n: Node, next: nat): (r: Built)
    requires BuildSupported(n)
    decreases n, 1
    ensures r.item.Some? <==> Builds(n)
    ensures r.next >= next
    ensures r.item.None? ==> r.next == next
  {
    match n
    case Object(ms) =>
      var idAt := Find(ms, "id");
      if idAt.Some? && !ms[idAt.value].1.Value? then Built(None, next)
      else
        var id := if idAt.Some? then IdOf(ms[idAt.value].1.v) as int else next;
        var afterId := if idAt.Some? then next else next + 1;
        var subAt := Find(ms, "submenu");
        if subAt.Some? && ms[subAt.value].1.Array? then
          assert ms[subAt.value].1 < ms[subAt.value];
          var (kids, afterKids) := BuildChildren(ms[subAt.value].1.elements, afterId);
          Built(Some(Item(id, Props(ms), kids)), afterKids)
        else
          Built(Some(Item(id, Props(ms), [])), afterId)
    case _ => Built(None, next)
  }

  /** The loop over a "submenu" array: each element is built in turn with the
      counter left by the ones before it, and appended if it builds. */
  function BuildChildren(es: seq<Node>, next: nat): (r: (seq<Item>, nat))
    requires forall i :: 0 <= i < |es| ==> BuildSupported(es[i])
    decreases es, 0
    ensures |r.0| <= |es|
    ensures r.1 >= next
  {
    if es == [] then ([], next)
    else
      var (kids, k) := BuildChildren(es[..|es| - 1], next);
      var b := Build(es[|es| - 1], k);
      (if b.item.Some? then kids + [b.item.value] else kids, b.next)
  }

  /** The id, property and submenu rules of one build. */
  lemma BuildRules(n: Node, next: nat)
    requires n.Object? && BuildSupported(n)
    ensures var ms, r := n.members, Build(n, next);
      var idAt, subAt := Find(ms, "id"), Find(ms, "submenu");
      && (idAt.Some? && !ms[idAt.value].1.Value? ==> r.item.None?)
      && (idAt.Some? && ms[idAt.value].1.Value? ==> r.item.Some? && r.item.value.id == IdOf(ms[idAt.value].1.v) as int)
      && (idAt.None? ==> r.item.Some? && r.item.value.id == next && r.next >= next + 1)
      && (r.item.Some? ==> r.item.value.props == Props(ms))
      && (r.item.Some? && (subAt.None? || !ms[subAt.value].1.Array?) ==>
            r.item.value.children == [] && r.next == (if idAt.Some? then next else next + 1))
      && (r.item.Some? && subAt.Some? && ms[subAt.value].1.Array? ==>
            (r.item.value.children, r.next) ==
              BuildChildren(ms[subAt.value].1.elements, if idAt.Some? then next else next + 1))
  {
  }

  /** The counter value when element `i` of a submenu array is built. */
  function CounterAt(es: seq<Node>, next: nat, i: nat): nat
    requires i <= |es|
    requires forall j :: 0 <= j < |es| ==> BuildSupported(es[j])
  {
    BuildChildren(es[..i], next).1
  }

  /** The children are exactly the elements that build, each built with the
      counter its predecessors left, in array order. */
  lemma {:induction false} ChildrenAreBuiltElements(es: seq<Node>, next: nat)
    requires forall i :: 0 <= i < |es| ==> BuildSupported(es[i])
    ensures ChildrenKeptInOrder(es, next)
  {
    if es != [] {
      ChildrenAreBuiltElements(es[..|es| - 1], next);
      ChildrenKeptInOrderStep(es, next);
    }
  }

  /** Child j is the j-th element that builds, built with the counter value
      reached at its position. */
  predicate ChildrenKeptInOrder(es: seq<Node>, next: nat)
    requires forall i :: 0 <= i < |es| ==> BuildSupported(es[i])
  {
    var kids, ix := BuildChildren(es, next).0, Kept(es, Builds);
    && |kids| == |ix|
    && forall j :: 0 <= j < |ix| ==> kids[j] == Build(es[ix[j]], CounterAt(es, next, ix[j])).item.value
  }

  lemma ChildrenKeptInOrderStep(es: seq<Node>, next: nat)
    requires es != [] && forall i :: 0 <= i < |es| ==> BuildSupported(es[i])
    requires ChildrenKeptInOrder(es[..|es| - 1], next)
    ensures ChildrenKeptInOrder(es, next)
  {
    var init, last := es[..|es| - 1], es[|es| - 1];
    var kids, k := BuildChildren(init, next).0, BuildChildren(init, next).1;
    var ix := Kept(init, Builds);
    var tail := if Builds(last) then [Build(last, k).item.value] else [];
    var ix' := ix + (if Builds(last) then [|init|] else []);
    BuildChildrenLast(es, next);
    assert Kept(es, Builds) == ix';
    forall j | 0 <= j < |ix'|
      ensures (kids + tail)[j] == Build(es[ix'[j]], CounterAt(es, next, ix'[j])).item.value
    {
      if j < |ix| {
        var i := ix[j];
        assert kids[j] == Build(init[i], CounterAt(init, next, i)).item.value;
        CounterAtPrefix(es, next, i);
      } else {
        assert es[..|init|] == init;
      }
    }
  }

  lemma BuildChildrenLast(es: seq<Node>, next: nat)
    requires es != [] && forall i :: 0 <= i < |es| ==> BuildSupported(es[i])
    ensures var r, b := BuildChildren(es[..|es| - 1], next), Build(es[|es| - 1], BuildChildren(es[..|es| - 1], next).1);
      BuildChildren(es, next) == (if b.item.Some? then r.0 + [b.item.value] else r.0, b.next)
  {
  }

  /** One more pass of the submenu loop, stated on prefixes of `es`. */
  lemma BuildChildrenStep(es: seq<Node>, next: nat, count: nat)
    requires count < |es| && forall i :: 0 <= i < |es| ==> BuildSupported(es[i])
    ensures var r := BuildChildren(es[..count], next);
      var b := Build(es[count], r.1);
      BuildChildren(es[..count + 1], next) == (if b.item.Some? then r.0 + [b.item.value] else r.0, b.next)
  {
    assert es[..count + 1][..count] == es[..count];
  }

  lemma CounterAtPrefix(es: seq<Node>, next: nat, i: nat)
    requires i < |es| - 1 && forall j :: 0 <= j < |es| ==> BuildSupported(es[j])
    ensures es[..|es| - 1][i] == es[i]
    ensures CounterAt(es, next, i) == CounterAt(es[..|es| - 1], next, i)
  {
    assert es[..|es| - 1][..i] == es[..i];
  }

  /** A submenu element that does not build changes nothing for its
      siblings: the children and the counter are those of the array without
      it. */
  lemma {:induction false} FailedChildIsSkipped(a: seq<Node>, x: Node, b: seq<Node>, next: nat)
    requires forall i :: 0 <= i < |a| ==> BuildSupported(a[i])
    requires forall i :: 0 <= i < |b| ==> BuildSupported(b[i])
    requires BuildSupported(x) && !Builds(x)
    ensures BuildChildren(a + [x] + b, next) == BuildChildren(a + b, next)
  {
    var full := a + [x] + b;
    if b == [] {
      assert full[..|full| - 1] == a;
      assert a + b == a;
    } else {
      var b' := b[..|b| - 1];
      FailedChildIsSkipped(a, x, b', next);
      assert full[..|full| - 1] == a + [x] + b';
      assert (a + b)[..|a + b| - 1] == a + b';
    }
  }

  /** Every object reached through "submenu" arrays carries an "id". */
  predicate ExplicitIds(n: Node)
    decreases n
  {
    match n
    case Object(ms) =>
      Find(ms, "id").Some? &&
      var subAt := Find(ms, "submenu");
      (subAt.Some? && ms[subAt.value].1.Array? ==>
         assert ms[subAt.value].1 < ms[subAt.value];
         var es := ms[subAt.value].1.elements;
         forall j :: 0 <= j < |es| ==> ExplicitIds(es[j]))
    case _ => true
  }

  /** A document that gives every item its id builds the same tree whatever
      the counter, and allocates nothing: loading it twice gives equal trees. */
  lemma {:induction false} ExplicitIdsIgnoreCounter(n: Node, k: nat, k': nat)
    requires BuildSupported(n) && ExplicitIds(n)
    decreases n, 1
    ensures Build(n, k).item == Build(n, k').item
    ensures Build(n, k).next == k
  {
    match n
    case Object(ms) =>
      var subAt := Find(ms, "submenu");
      if Builds(n) && subAt.Some? && ms[subAt.value].1.Array? {
        assert ms[subAt.value].1 < ms[subAt.value];
        ExplicitIdsIgnoreCounterInChildren(ms[subAt.value].1.elements, k, k');
      }
    case _ =>
  }

  lemma {:induction false} ExplicitIdsIgnoreCounterInChildren(es: seq<Node>, k: nat, k': nat)
    requires forall i :: 0 <= i < |es| ==> BuildSupported(es[i]) && ExplicitIds(es[i])
    decreases es, 0
    ensures BuildChildren(es, k).0 == BuildChildren(es, k').0
    ensures BuildChildren(es, k).1 == k
  {
    if es != [] {
      var init, last := es[..|es| - 1], es[|es| - 1];
      ExplicitIdsIgnoreCounterInChildren(init, k, k');
      ExplicitIdsIgnoreCounterInChildren(init, k', k);
      ExplicitIdsIgnoreCounter(last, k, k');
      ExplicitIdsIgnoreCounter(last, k', k);
      assert BuildChildren(es, k) ==
        (if Builds(last) then BuildChildren(init, k).0 + [Build(last, k).item.value] else BuildChildren(init, k).0, k);
      assert BuildChildren(es, k') ==
        (if Builds(last) then BuildChildren(init, k').0 + [Build(last, k').item.value] else BuildChildren(init, k').0, k');
    }
  }

  /** No object reached through "submenu" arrays carries an "id". */
  predicate NoExplicitIds(n: Node)
    decreases n
  {
    match n
    case Object(ms) =>
      Find(ms, "id").None? &&
      var subAt := Find(ms, "submenu");
      (subAt.Some? && ms[subAt.value].1.Array? ==>
         assert ms[subAt.value].1 < ms[subAt.value];
         var es := ms[subAt.value].1.elements;
         forall j :: 0 <= j < |es| ==> NoExplicitIds(es[j]))
    case _ => true
  }

  /** The ids of a tree in pre-order: the item before its children. */
  function Ids(item: Item): seq<int>
    decreases item, 1
  {
    [item.id] + IdsOf(item.children)
  }

  function IdsOf(items: seq<Item>): seq<int>
    decreases items, 0
  {
    if items == [] then [] else IdsOf(items[..|items| - 1]) + Ids(items[|items| - 1])
  }

  /** The integers from `lo` up to, not including, `hi`. */
  function Range(lo: int, hi: int): (r: seq<int>)
    requires lo <= hi
    ensures |r| == hi - lo && forall i :: 0 <= i < |r| ==> r[i] == lo + i
  {
    seq(hi - lo, i => lo + i)
  }

  lemma RangeSplit(lo: int, mid: int, hi: int)
    requires lo <= mid <= hi
    ensures Range(lo, mid) + Range(mid, hi) == Range(lo, hi)
  {
  }

  /** Without explicit ids, the ids of the built tree, in pre-order, are the
      consecutive counter values the build consumed, so no two are equal. */
  lemma {:induction false} FreshIdsAreConsecutive(n: Node, k: nat)
    requires BuildSupported(n) && NoExplicitIds(n) && Builds(n)
    decreases n, 1
    ensures Ids(Build(n, k).item.value) == Range(k, Build(n, k).next)
    ensures var ids := Ids(Build(n, k).item.value);
      forall i, j :: 0 <= i < j < |ids| ==> ids[i] != ids[j]
  {
    var ms := n.members;
    BuildRules(n, k);
    var subAt := Find(ms, "submenu");
    if subAt.Some? && ms[subAt.value].1.Array? {
      assert ms[subAt.value].1 < ms[subAt.value];
      var es := ms[subAt.value].1.elements;
      FreshIdsAreConsecutiveInChildren(es, k + 1);
      RangeSplit(k, k + 1, Build(n, k).next);
    } else {
      assert Ids(Build(n, k).item.value) == [k];
    }
  }

  lemma {:induction false} FreshIdsAreConsecutiveInChildren(es: seq<Node>, k: nat)
    requires forall i :: 0 <= i < |es| ==> BuildSupported(es[i]) && NoExplicitIds(es[i])
    decreases es, 0
    ensures IdsOf(BuildChildren(es, k).0) == Range(k, BuildChildren(es, k).1)
  {
    if es != [] {
      var init := es[..|es| - 1];
      var (kids, k1) := BuildChildren(init, k);
      FreshIdsAreConsecutiveInChildren(init, k);
      var x := es[|es| - 1];
      if Builds(x) {
        FreshIdsAreConsecutive(x, k1);
        RangeSplit(k, k1, Build(x, k1).next);
        var all := kids + [Build(x, k1).item.value];
        assert all[..|all| - 1] == kids;
      }
    }
  }
}
