/** The conversion of one JSON node into a GVariant value, or into no value
    (node2variant with its two builder callbacks array_foreach and
    object_foreach). A GVariantBuilder is an accumulator that the callbacks
    append to in iteration order, so each container conversion is a
    filter-and-map over the container's children. */
module Variants {
  import opened Json

  /** The GVariant values the loader produces. A dictionary is an ordered
      sequence of entries, as GVariant's a{sv} is. */
  datatype Variant =
    | VInt32(i: int32)
    | VDouble(d: real)
    | VBool(b: bool)
    | VString(s: string)
    | VArray(items: seq<Variant>)
    | VDict(entries: seq<(string, Variant)>)

  /** C's conversion of a wider signed integer to gint32: two's complement
      wrap-around, the identity on values already in range. */
  function Wrap32(x: int): (r: int32)
    ensures -0x8000_0000 <= x < 0x8000_0000 ==> r as int == x
    ensures (x - r as int) % 0x1_0000_0000 == 0
  {
    var q := (x + 0x8000_0000) / 0x1_0000_0000;
    var m := (x + 0x8000_0000) % 0x1_0000_0000;
    assert x + 0x8000_0000 == 0x1_0000_0000 * q + m;
    (m - 0x8000_0000) as int32
  }

  /** The positions of `xs` whose element satisfies `keep`, in order. */
  function Kept<T>(xs: seq<T>, keep: T -> bool): (ix: seq<nat>)
    ensures forall j :: 0 <= j < |ix| ==> ix[j] < |xs| && keep(xs[ix[j]])
    ensures forall j, j' :: 0 <= j < j' < |ix| ==> ix[j] < ix[j']
    ensures forall i :: 0 <= i < |xs| && keep(xs[i]) ==> i in ix
  {
    if xs == [] then []
    else
      var init := Kept(xs[..|xs| - 1], keep);
      if keep(xs[|xs| - 1]) then init + [|xs| - 1] else init
  }

  /** Whether node2variant gives `n` a value: by Convert's first ensures,
      exactly when `n` is not null. */
  predicate Converts(n: Node) { !n.Null? }

  /** Whether a member's value converts. */
  predicate MemberConverts(m: (string, Node)) { !m.1.Null? }

  /** node2variant on a scalar: the switch on the declared type. */
  function ConvertScalar(v: Scalar): (r: Variant)
    requires !v.Other?
    ensures (v.Int? || v.Int64?) <==> r.VInt32?
    ensures (v.Double? || v.Float?) <==> r.VDouble?
    ensures v.Boolean? <==> r.VBool?
    ensures v.Str? <==> r.VString?
  {
    match v
    case Int(i) => VInt32(i)
    case Int64(l) => VInt32(Wrap32(l as int))
    case Double(d) => VDouble(d)
    case Float(f) => VDouble(f)
    case Boolean(b) => VBool(b)
    case Str(s) => VString(s)
  }

  /** node2variant: null gives no value, a scalar its typed value, an array
      or an object the container of its converted children. */
  function Convert(n: Node): (r: Option<Variant>)
    requires Supported(n)
    decreases n, 1
    ensures r.None? <==> n.Null?
    ensures n.Value? ==> !r.value.VArray? && !r.value.VDict?
    ensures n.Array? ==> r.value.VArray? && |r.value.items| <= |n.elements|
    ensures n.Object? ==> r.value.VDict? && |r.value.entries| <= |n.members|
  {
    match n
    case Null => None
    case Value(v) => Some(ConvertScalar(v))
    case Array(es) => Some(VArray(ConvertElements(es)))
    case Object(ms) => Some(VDict(ConvertMembers(ms)))
  }

  /** array_foreach applied to every element in turn: each element that
      converts is appended to the builder. */
  function ConvertElements(es: seq<Node>): (items: seq<Variant>)
    requires forall i :: 0 <= i < |es| ==> Supported(es[i])
    decreases es, 0
    ensures |items| <= |es|
  {
    if es == [] then []
    else
      var init := ConvertElements(es[..|es| - 1]);
      match Convert(es[|es| - 1])
      case None => init
      case Some(v) => init + [v]
  }

  /** object_foreach applied to every member in turn: each member whose value
      converts is appended to the builder under its own name. */
  function ConvertMembers(ms: seq<(string, Node)>): (entries: seq<(string, Variant)>)
    requires forall i :: 0 <= i < |ms| ==> Supported(ms[i].1)
    decreases ms, 0
    ensures |entries| <= |ms|
  {
    if ms == [] then []
    else
      var init := ConvertMembers(ms[..|ms| - 1]);
      var last := ms[|ms| - 1];
      assert last.1 < last;
      match Convert(last.1)
      case None => init
      case Some(v) => init + [(last.0, v)]
  }

  /** The type table of node2variant: each declared scalar type gives the
      variant of the matching kind carrying the same value; a 64-bit integer
      is narrowed to 32 bits, exactly when it is in range. */
  lemma ConvertScalarKeepsValue(v: Scalar)
    requires !v.Other?
    ensures v.Int? ==> Convert(Value(v)) == Some(VInt32(v.i))
    ensures v.Int64? ==> Convert(Value(v)).value.VInt32?
    ensures v.Int64? ==> (v.l as int - Convert(Value(v)).value.i as int) % 0x1_0000_0000 == 0
    ensures v.Int64? && -0x8000_0000 <= v.l as int < 0x8000_0000 ==>
              Convert(Value(v)).value.i as int == v.l as int
    ensures v.Double? ==> Convert(Value(v)) == Some(VDouble(v.d))
    ensures v.Float? ==> Convert(Value(v)) == Some(VDouble(v.f))
    ensures v.Boolean? ==> Convert(Value(v)) == Some(VBool(v.b))
    ensures v.Str? ==> Convert(Value(v)) == Some(VString(v.s))
  {
  }

  /** An array converts to exactly its elements that convert, each converted,
      in their original relative order. */
  lemma {:induction false} ConvertElementsKeepsPresent(es: seq<Node>)
    requires forall i :: 0 <= i < |es| ==> Supported(es[i])
    ensures ElementsKeptInOrder(es)
  {
    if es != [] {
      ConvertElementsKeepsPresent(es[..|es| - 1]);
      ElementsKeptInOrderStep(es);
    }
  }

  /** The converted array holds, at each position j, the converted j-th
      element that is present. */
  predicate ElementsKeptInOrder(es: seq<Node>)
    requires forall i :: 0 <= i < |es| ==> Supported(es[i])
  {
    var items, ix := ConvertElements(es), Kept(es, Converts);
    && |items| == |ix|
    && forall j :: 0 <= j < |ix| ==> items[j] == Convert(es[ix[j]]).value
  }

  lemma ElementsKeptInOrderStep(es: seq<Node>)
    requires es != [] && forall i :: 0 <= i < |es| ==> Supported(es[i])
    requires ElementsKeptInOrder(es[..|es| - 1])
    ensures ElementsKeptInOrder(es)
  {
  }

  /** An object converts to exactly its members whose value converts, each
      under its own name and in member order. */
  lemma {:induction false} ConvertMembersKeepsPresent(ms: seq<(string, Node)>)
    requires forall i :: 0 <= i < |ms| ==> Supported(ms[i].1)
    ensures MembersKeptInOrder(ms)
  {
    if ms != [] {
      ConvertMembersKeepsPresent(ms[..|ms| - 1]);
      MembersKeptInOrderStep(ms);
    }
  }

  /** The converted dictionary holds, at each position j, the j-th member
      whose value is present, under its name and converted. */
  predicate MembersKeptInOrder(ms: seq<(string, Node)>)
    requires forall i :: 0 <= i < |ms| ==> Supported(ms[i].1)
  {
    var entries, ix := ConvertMembers(ms), Kept(ms, MemberConverts);
    && |entries| == |ix|
    && forall j :: 0 <= j < |ix| ==> entries[j] == (ms[ix[j]].0, Convert(ms[ix[j]].1).value)
  }

  lemma MembersKeptInOrderStep(ms: seq<(string, Node)>)
    requires ms != [] && forall i :: 0 <= i < |ms| ==> Supported(ms[i].1)
    requires MembersKeptInOrder(ms[..|ms| - 1])
    ensures MembersKeptInOrder(ms)
  {
  }
}
