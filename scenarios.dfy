/** Concrete documents and what the loader builds from them, worked out on
    the model. Each one shows one rule of dbusmenu_json_build_from_node. */
module Scenarios {
  import opened Json
  import opened Variants
  import opened MenuSpec

  /** A JSON integer as json-glib's parser delivers it: a G_TYPE_INT64 value. */
  function IntNode(i: int32): Node { Value(Int64(i as int as int64)) }

  /** {"id":5,"foo":"bar"} gives item 5 with the one property foo and no
      children, and takes no id from the counter. */
  lemma ExplicitIdAndProperty(k: nat)
    ensures Build(Object([("id", IntNode(5)), ("foo", Value(Str("bar")))]), k)
         == Built(Some(Item(5, map["foo" := VString("bar")], [])), k)
  {
    var ms := [("id", IntNode(5)), ("foo", Value(Str("bar")))];
    assert Find(ms, "id") == Some(0);
    assert Find(ms, "submenu") == None;
    assert ms[..1] == [("id", IntNode(5))];
    assert SetPropsSpec(map[], ms[..1]) == map[];
    assert Props(ms) == map["foo" := VString("bar")];
  }

  /** {"id":i} alone gives item i with nothing else. */
  lemma IdOnly(i: int32, k: nat)
    ensures Build(Object([("id", IntNode(i))]), k) == Built(Some(Item(i as int, map[], [])), k)
  {
    var ms := [("id", IntNode(i))];
    assert Find(ms, "id") == Some(0);
    assert Find(ms, "submenu") == None;
    assert ms[..0] == [];
    assert SetPropsSpec(map[], ms[..0]) == map[];
    assert Props(ms) == map[];
  }

  /** {"id":i,"submenu":es} gives item i whose children are those the
      submenu loop builds from `es`, with the counter it leaves. */
  lemma IdAndSubmenu(i: int32, es: seq<Node>, k: nat)
    requires forall j :: 0 <= j < |es| ==> BuildSupported(es[j])
    ensures BuildSupported(Object([("id", IntNode(i)), ("submenu", Array(es))]))
    ensures var r := BuildChildren(es, k);
      Build(Object([("id", IntNode(i)), ("submenu", Array(es))]), k) == Built(Some(Item(i as int, map[], r.0)), r.1)
  {
    var ms := [("id", IntNode(i)), ("submenu", Array(es))];
    assert Find(ms, "id") == Some(0);
    assert Find(ms, "submenu") == Some(1);
    assert ms[..1] == [ms[0]] && ms[..1][..0] == [];
    assert SetPropsSpec(map[], ms[..1]) == map[];
    assert Props(ms) == map[];
    BuildRules(Object(ms), k);
  }

  /** {"id":1,"submenu":[{"id":2},42]} gives item 1 with the single child 2:
      the element 42 is not an object and is skipped. */
  lemma NonObjectChildSkipped(k: nat)
    ensures Build(Object([("id", IntNode(1)), ("submenu", Array([Object([("id", IntNode(2))]), IntNode(42)]))]), k)
         == Built(Some(Item(1, map[], [Item(2, map[], [])])), k)
  {
    var es := [Object([("id", IntNode(2))]), IntNode(42)];
    IdOnly(2, k);
    assert es[..0] == [] && es[..2] == es;
    assert BuildChildren(es[..0], k) == ([], k);
    assert Build(es[0], k) == Built(Some(Item(2, map[], [])), k);
    BuildChildrenStep(es, k, 0);
    assert [] + [Item(2, map[], [])] == [Item(2, map[], [])];
    BuildChildrenStep(es, k, 1);
    assert Build(es[1], k) == Built(None, k);
    assert BuildChildren(es, k) == ([Item(2, map[], [])], k);
    IdAndSubmenu(1, es, k);
  }

  /** {"id":1,"list":[1,null,2]} stores list as the array [1,2]: the null
      element converts to nothing and is dropped. */
  lemma NullElementDropped(k: nat)
    ensures Build(Object([("id", IntNode(1)), ("list", Array([IntNode(1), Null, IntNode(2)]))]), k)
         == Built(Some(Item(1, map["list" := VArray([VInt32(1), VInt32(2)])], [])), k)
  {
    var es := [IntNode(1), Null, IntNode(2)];
    assert es[..2] == [IntNode(1), Null] && es[..2][..1] == [IntNode(1)] && [IntNode(1)][..0] == [];
    assert ConvertElements([IntNode(1)]) == [VInt32(1)];
    assert ConvertElements(es[..2]) == [VInt32(1)];
    assert ConvertElements(es) == [VInt32(1), VInt32(2)];
    var ms := [("id", IntNode(1)), ("list", Array(es))];
    assert Find(ms, "id") == Some(0);
    assert Find(ms, "submenu") == None;
    assert ms[..1] == [ms[0]] && ms[..1][..0] == [];
    assert SetPropsSpec(map[], ms[..1]) == map[];
    assert Props(ms) == map["list" := VArray([VInt32(1), VInt32(2)])];
  }

  /** {"id":"notanint"} builds item 0: the "id" member is a value node, and
      json_node_get_int reads a string as 0. */
  lemma StringIdReadsAsZero(k: nat)
    ensures Build(Object([("id", Value(Str("notanint")))]), k) == Built(Some(Item(0, map[], [])), k)
  {
  }

  /** {"id":4294967301} builds item 5: the 64-bit integer is narrowed to
      gint by wrapping around modulo 2^32. */
  lemma WideIdWraps(k: nat)
    ensures Build(Object([("id", Value(Int64(0x1_0000_0005)))]), k) == Built(Some(Item(5, map[], [])), k)
  {
  }

  /** {"id":[1]} builds nothing, and the same object inside a submenu array
      is dropped while its siblings are kept. */
  lemma NonValueIdFails(k: nat)
    ensures Build(Object([("id", Array([IntNode(1)]))]), k) == Built(None, k)
    ensures Build(Object([("id", IntNode(1)), ("submenu", Array([Object([("id", Array([IntNode(1)]))]), Object([("id", IntNode(3))])]))]), k)
         == Built(Some(Item(1, map[], [Item(3, map[], [])])), k)
  {
    var bad := Object([("id", Array([IntNode(1)]))]);
    assert Find(bad.members, "id") == Some(0);
    IdOnly(3, k);
    var es := [bad, Object([("id", IntNode(3))])];
    assert es[..0] == [] && es[..2] == es;
    BuildChildrenStep(es, k, 0);
    assert BuildChildren(es[..1], k) == ([], k);
    assert Build(es[1], k) == Built(Some(Item(3, map[], [])), k);
    BuildChildrenStep(es, k, 1);
    assert [] + [Item(3, map[], [])] == [Item(3, map[], [])];
    IdAndSubmenu(1, es, k);
  }

  /** {"x":true,"submenu":7} takes its id from the counter and, its submenu
      not being an array, has no children. */
  lemma NonArraySubmenuKeepsItem(k: nat)
    ensures Build(Object([("x", Value(Boolean(true))), ("submenu", IntNode(7))]), k)
         == Built(Some(Item(k, map["x" := VBool(true)], [])), k + 1)
  {
    var ms := [("x", Value(Boolean(true))), ("submenu", IntNode(7))];
    assert Find(ms, "id") == None;
    assert Find(ms, "submenu") == Some(1);
    assert ms[..1] == [ms[0]] && ms[..1][..0] == [];
    assert SetPropsSpec(map[], ms[..1]) == map["x" := VBool(true)];
    assert Props(ms) == map["x" := VBool(true)];
  }
}
