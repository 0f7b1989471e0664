# JSON menu loader of libdbusmenu, modelled in Dafny

`tests/json-loader.c` turns a parsed JSON document into a tree of
`DbusmenuMenuitem`s. Each JSON object becomes a menu item:

- its `"id"` member gives the item's id; without one, the item takes a fresh
  id from libdbusmenu's global counter;
- every other member except `"submenu"` becomes a property, converted to a
  `GVariant` by `node2variant`;
- the elements of a `"submenu"` array are built in turn and appended as
  children.

The project models this loader and proves what it computes.

- `json.dfy` (module `Json`) is the JSON tree that json-glib hands the
  loader: null, value, array and object nodes. A value node carries its
  declared GType. Objects keep their members in document order.
- `variant.dfy` (module `Variants`) models `node2variant` and its two builder
  callbacks `array_foreach` and `object_foreach`. A `GVariantBuilder` is an
  accumulator that the callbacks append to in iteration order. The conversion
  of an array or an object is therefore a filter-and-map over its children.
- `menu_spec.dfy` (module `MenuSpec`) states on values what
  `dbusmenu_json_build_from_node` computes. `Build` gives the item tree, and
  the id counter after the build. The lemmas prove:
  - the id, property and submenu rules;
  - that failed children are skipped without affecting their siblings;
  - the order of the children;
  - the behaviour of the counter.
- `menu_item.dfy` (module `MenuItems`) is the loader as the C code runs it.
  - A `MenuItem` class has an id, a property map and a child list that the
    methods update in place.
  - An `IdAllocator` object stands for the counter behind
    `dbusmenu_menuitem_new`.
  - The methods `SetProps` and `BuildFromNode`, and the submenu loop, are
    each proved to produce the item that `MenuSpec.Build` describes.
  - `BuildFromFile` adds the root checks of `dbusmenu_json_build_from_file`.
- `scenarios.dfy` (module `Scenarios`) works out the loader's result on small
  concrete documents.

Three behaviours of the code are looser than an integer `"id"` and typed
properties would suggest. The model follows the code.

- The code only checks that `"id"` is a value node. `json_node_get_int` then
  coerces whatever that node holds:
  - a double is truncated toward zero;
  - a boolean gives 0 or 1;
  - a string gives 0.

  So `{"id":"notanint"}` builds item 0. It does not fail
  (`Scenarios.StringIdReadsAsZero`).
- An integer outside the 32-bit range is narrowed to `gint` by two's
  complement wrap-around (`Variants.Wrap32`). It is not rejected.
- A value of a GType the switch in `node2variant` does not know ends in
  `g_assert_not_reached`, which aborts the process. It is not returned as an
  error. The model makes this a precondition (`Json.Supported`,
  `MenuSpec.BuildSupported`) that excludes such inputs.

## Model

| member | source | states |
|---|---|---|
| Json.Find | tests/json-loader.c:130-131 | the member looked up by name is the first member with that name; there is none exactly when no member has it |
| Variants.Wrap32 | tests/json-loader.c:57-58 | narrowing to a 32-bit integer keeps every value already in range and otherwise differs from the input by a multiple of 2^32 |
| Variants.ConvertScalar | tests/json-loader.c:56-69 | the type switch: int and int64 give an int32 variant, double and float a double, boolean a bool, string a string, and each variant kind comes only from its matching scalar kinds |
| Variants.Convert | tests/json-loader.c:48-93 | a node converts to no value exactly when it is null; a value node gives a scalar, an array an array with at most one item per element, an object a dictionary with at most one entry per member |
| Variants.ConvertElements | tests/json-loader.c:26-35 | the array builder receives at most one value per element |
| Variants.ConvertMembers | tests/json-loader.c:37-46 | the dictionary builder receives at most one entry per member |
| Variants.ConvertScalarKeepsValue | tests/json-loader.c:55-66 | int gives int32 with the same value; int64 gives int32, equal when in range and congruent modulo 2^32 otherwise; double and float give double, boolean bool, string string, each with the same value |
| Variants.ConvertElementsKeepsPresent | tests/json-loader.c:72-80 | an array converts to exactly its elements that convert, each converted, in their original relative order |
| Variants.ConvertMembersKeepsPresent | tests/json-loader.c:82-90 | an object converts to exactly its members whose value converts, each under its own name, in member order |
| MenuSpec.SetPropsSpec | tests/json-loader.c:95-117 | set_props on values: visiting the members in order keeps every existing property name and never adds "id" or "submenu" |
| MenuSpec.SetPropsStores | tests/json-loader.c:101-114 | set_props adds exactly the names of the non-reserved members whose value converts; every other existing entry keeps its value |
| MenuSpec.SetPropsStoresValues | tests/json-loader.c:107-111 | with distinct member names, every non-reserved member whose value converts is stored under its name with its converted value |
| MenuSpec.PropsExcludeReserved | tests/json-loader.c:104-105 | "id" and "submenu" are never properties of a built item, and its property names are exactly the stored names |
| MenuSpec.GetInt | tests/json-loader.c:133 | json_node_get_int: an integer of either width is read as itself, doubles and floats truncated toward zero, a boolean as 1 exactly when true and 0 exactly when false, a string or other value as 0 |
| MenuSpec.Trunc | tests/json-loader.c:133 | reading a double as an integer truncates toward zero |
| MenuSpec.IdOf | tests/json-loader.c:133 | the id is the integer reading of the node narrowed to gint: equal to it when in the 32-bit range and congruent to it modulo 2^32 otherwise, so an int id is kept exactly, a double id is truncated and then narrowed; a string id reads as 0; a boolean id as 0 or 1 |
| MenuSpec.Build | tests/json-loader.c:119-155 | a node builds an item exactly when it is an object whose "id", if present, is a value node; the counter never goes back, and a failed build leaves it unchanged |
| MenuSpec.BuildChildren | tests/json-loader.c:145-150 | the submenu loop yields at most one child per element and never moves the counter back |
| MenuSpec.BuildRules | tests/json-loader.c:130-151 | a non-value "id" fails; a value "id" gives the item that id; a missing "id" gives the counter's value and consumes it; the properties are those set_props stores; a missing or non-array "submenu" leaves the item childless and the counter after the id; an array "submenu" gives the children and counter of the submenu loop |
| MenuSpec.ChildrenAreBuiltElements | tests/json-loader.c:145-150 | the children are exactly the elements that build, in array order, each built with the counter value its predecessors left |
| MenuSpec.FailedChildIsSkipped | tests/json-loader.c:146-149 | removing an element that does not build changes neither the children nor the final counter |
| MenuSpec.ExplicitIdsIgnoreCounter | tests/json-loader.c:130-136 | a document that gives every item an id builds the same tree whatever the counter and allocates no id, so loading it twice gives equal trees |
| MenuSpec.FreshIdsAreConsecutive | tests/json-loader.c:134-136 | without explicit ids, the ids of the built tree in pre-order are the consecutive counter values the build consumed, so they are pairwise distinct |
| MenuItems.IdAllocator.constructor | tests/json-loader.c:135 | the counter starts at the given value |
| MenuItems.IdAllocator.Allocate | tests/json-loader.c:135 | hands out the counter's value and moves the counter one past it |
| MenuItems.MenuItem.constructor | tests/json-loader.c:133 | a new item has the given id, no properties and no children |
| MenuItems.MenuItem.SetProperty | tests/json-loader.c:111 | stores the value under the name, replacing any earlier one, and changes nothing else |
| MenuItems.MenuItem.ChildAppend | tests/json-loader.c:148 | the child, whose objects the item does not already hold, becomes the last child and nothing else changes |
| MenuItems.SetProps | tests/json-loader.c:95-117 | the item's property map becomes the result of visiting the members in order, and its id and children are unchanged |
| MenuItems.BuildFromNode | tests/json-loader.c:119-155 | returns null exactly when Build gives no item; otherwise a valid item tree of fresh objects, each child owning objects no sibling holds, whose value is Build's item; the counter ends where Build leaves it |
| MenuItems.NewItem | tests/json-loader.c:129-138 | the new item has Build's id and properties and no children; the counter moves by one exactly when "id" is missing |
| MenuItems.AttachSubmenu | tests/json-loader.c:140-151 | after the submenu step the item equals Build's item and the counter equals Build's counter |
| MenuItems.AppendBuiltChildren | tests/json-loader.c:143-150 | the loop appends exactly the children BuildChildren gives, in order, and leaves the counter where BuildChildren does |
| MenuItems.AppendElement | tests/json-loader.c:146-149 | one pass builds the element and appends it when it builds, keeping the loop's relation to BuildChildren one element further |
| MenuItems.BuildFromFile | tests/json-loader.c:157-180 | a parse error or a non-object root gives null and allocates nothing; otherwise the result and the counter are those of Build on the root |
| Scenarios.ExplicitIdAndProperty | tests/json-loader.c:130-138 | {"id":5,"foo":"bar"} builds item 5 with the single property foo = "bar", no children, and no id allocated |
| Scenarios.IdOnly | tests/json-loader.c:130-133 | {"id":i} builds item i with no properties and no children |
| Scenarios.IdAndSubmenu | tests/json-loader.c:140-150 | {"id":i,"submenu":es} builds item i whose children and counter are those of the submenu loop over es |
| Scenarios.NonObjectChildSkipped | tests/json-loader.c:145-149 | {"id":1,"submenu":[{"id":2},42]} builds item 1 with exactly one child, item 2 |
| Scenarios.NullElementDropped | tests/json-loader.c:26-35 | {"id":1,"list":[1,null,2]} stores list as the array [1,2] |
| Scenarios.StringIdReadsAsZero | tests/json-loader.c:130-133 | {"id":"notanint"} builds item 0 |
| Scenarios.WideIdWraps | tests/json-loader.c:130-133 | {"id":4294967301} builds item 5: an out-of-range integer id wraps around to gint |
| Scenarios.NonValueIdFails | tests/json-loader.c:132 | {"id":[1]} builds nothing, and inside a submenu array such an element is dropped while its sibling is kept |
| Scenarios.NonArraySubmenuKeepsItem | tests/json-loader.c:142 | {"x":true,"submenu":7} builds an item with a fresh id and the property x but no children |

## Left out

- JSON parsing and file reading (`json_parser_load_from_file`,
  tests/json-loader.c:163-167) are replaced by `MenuItems.Parsed`. This is
  either the root node or the parser's error. The warning messages are not
  modelled.
- The C `NULL` pointer checks on the node (tests/json-loader.c:51, 98, 124)
  are not modelled: a node always exists. A JSON `null` is the `Null` node
  kind, which node2variant turns into no value at line 92.
- `Variants.Convert`: GLib's builder type checks are not modelled; the
  GVariant library is not part of this model, and `GVariantBuilder` is an
  order-keeping accumulator here. The model therefore differs from GLib in
  two ways:
  - an empty JSON array `[]` or object `{}` converts here to an empty array
    or dictionary. GLib's `g_variant_builder_end` gives NULL for an empty
    builder of indefinite type, so the program drops such a property or
    element;
  - an array whose elements convert to variants of different types keeps
    them all here. GLib's `g_variant_builder_add_value` refuses an element
    whose type differs from the earlier ones, so the program drops it.
- `Variants.Convert` and `MenuSpec.BuildSupported`: an unknown declared
  GType, which aborts the process through `g_assert_not_reached`
  (tests/json-loader.c:68), is excluded by precondition. It is not modelled
  as an outcome. `BuildSupported` excludes only the values the loader
  actually converts.
- Reference counting (`g_variant_unref`, `g_object_unref`) and memory
  release are not modelled.
- libdbusmenu's menu item code is not part of this model.
  `dbusmenu_menuitem_new` is modelled as a counter that hands out its value
  and moves on. Whatever libdbusmenu does on top of that is not captured:
  for example, keeping fresh ids clear of explicit ones, or validating
  property types. So ids in a document that mixes explicit and fresh ids
  need not be distinct here (`MenuSpec.FreshIdsAreConsecutive` covers
  documents without explicit ids). The counter is an unbounded natural
  number, and the overflow of the C `gint` is not modelled.
- `MenuSpec.Trunc`: converting a double outside the 64-bit range to an
  integer is undefined in C. The model truncates toward zero for every
  real.
- Object members are modelled as a sequence of (name, node) pairs. json-glib
  keeps member names distinct. `set_props` looks each name up again with
  `json_object_get_member`, and the model uses the pair's own node, which is
  the same node when names are distinct. The lemma that states the stored
  values (`MenuSpec.SetPropsStoresValues`) therefore requires distinct
  names. When a name does recur, the model overwrites earlier values with
  later ones.
- Floating point numbers are modelled as reals, and float is not rounded to
  single precision.
- The dumper (`tools/dbusmenu-dumper.c`), the benchmark
  (`tools/dbusmenubench.py`) and the test client
  (`tests/test-json-client.c`) are not part of this model: they are DBus,
  X11 and main-loop plumbing around the loader.
