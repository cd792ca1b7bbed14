/** Event properties: a JSON tree on the way in, a flat list on the way out. */
module Properties {
  import opened Wrappers
  import opened Text
  import opened FlatKeys
  import Float64

  type U64 = n: int | 0 <= n < 0x1_0000_0000_0000_0000
  type NegativeI64 = n: int | -0x8000_0000_0000_0000 <= n < 0 witness -1

  /** A JSON number as parsed: an integer if it fits one of the two ranges. */
  datatype Num = PosInt(n: U64) | NegInt(i: NegativeI64) | Float(x: real)

  datatype Json =
    | Null
    | Bool(b: bool)
    | Number(num: Num)
    | String(s: Str)
    | Array(items: seq<Json>)
    | Object(fields: Map)

  /** The fields of an object in the order of its map. */
  type Map = seq<Field>

  datatype Field = Field(key: Str, value: Json)

  datatype Scalar = StringValue(s: Str) | BoolValue(b: bool) | NumberValue(x: real)

  datatype Property = Property(key: Str, value: Scalar)

  // ---------------------------------------------------------------------------
  // Numbers
  // ---------------------------------------------------------------------------

  function AsI64(n: Num): Option<int> {
    match n
    case PosInt(p) => if p < 0x8000_0000_0000_0000 then Some(p) else None
    case NegInt(i) => Some(i)
    case Float(_) => None
  }

  function AsU64(n: Num): Option<int> {
    match n
    case PosInt(p) => Some(p)
    case _ => None
  }

  function AsF64(n: Num): real {
    match AsI64(n)
    case Some(i) => Float64.FromInt(i) as real
    case None =>
      match AsU64(n)
      case Some(u) => Float64.FromInt(u) as real
      case None => n.x
  }

  function Exact(n: Num): real {
    match n
    case PosInt(p) => p as real
    case NegInt(i) => i as real
    case Float(x) => x
  }

  /** Integers are off by at most 512 where they fit `i64` and at most 1024 above; up to 53
      bits they are exact, and numbers that are doubles already pass unchanged. */
  lemma NumberError(n: Num)
    ensures var error := AsF64(n) - Exact(n);
            && (AsI64(n).Some? ==> -512.0 <= error <= 512.0)
            && (n.PosInt? ==> -1024.0 <= error <= 1024.0)
            && (n.Float? || -9007199254740992.0 <= Exact(n) <= 9007199254740992.0 ==> error == 0.0)
  {
    match n
    case PosInt(p) =>
      Float64.ErrorBound(p);
      if p <= Float64.TWO_53 {
        Float64.ExactUpTo53Bits(p);
      }
    case NegInt(i) =>
      Float64.ErrorBound(i);
      if i >= -Float64.TWO_53 {
        Float64.ExactUpTo53Bits(i);
      }
    case Float(_) =>
  }

  /** The order of integers survives, also between the two ranges. */
  lemma NumbersKeepOrder(m: Num, n: Num)
    requires !m.Float? && !n.Float? && Exact(m) <= Exact(n)
    ensures AsF64(m) <= AsF64(n)
  {
    var i: int := if m.PosInt? then m.n else m.i;
    var j: int := if n.PosInt? then n.n else n.i;
    Float64.Monotone(i, j);
  }

  // ---------------------------------------------------------------------------
  // Flattening
  // ---------------------------------------------------------------------------

  /** The fields from left to right under the prefix of their object. */
  function Flatten(prefix: Str, properties: Map): seq<Property>
    decreases properties
  {
    if properties == [] then []
    else
      var n := |properties| - 1;
      Flatten(prefix, properties[..n]) + FlattenField(prefix, properties[n])
  }

  function FlattenField(prefix: Str, field: Field): seq<Property>
    decreases field
  {
    var prefixedKey := prefix + field.key;
    match field.value
    case String(s) => [Property(prefixedKey, StringValue(s))]
    case Bool(b) => [Property(prefixedKey, BoolValue(b))]
    case Number(n) => [Property(prefixedKey, NumberValue(AsF64(n)))]
    case Object(map_) => Flatten(prefix + prefixedKey + SEPARATOR, map_)
    case _ => []
  }

  lemma {:induction false} FlattenConcat(prefix: Str, a: Map, b: Map)
    ensures Flatten(prefix, a + b) == Flatten(prefix, a) + Flatten(prefix, b)
  {
    if b == [] {
      assert a + b == a;
    } else {
      FlattenConcat(prefix, a, b[..|b| - 1]);
      assert (a + b)[..|a + b| - 1] == a + b[..|b| - 1];
    }
  }

  /** What one field becomes: fields from left to right each do, and nothing else comes in. */
  lemma FlattenOne(prefix: Str, key: Str, value: Json)
    ensures var flat := Flatten(prefix, [Field(key, value)]);
            && (value.String? ==> flat == [Property(prefix + key, StringValue(value.s))])
            && (value.Bool? ==> flat == [Property(prefix + key, BoolValue(value.b))])
            && (value.Number? ==> flat == [Property(prefix + key, NumberValue(AsF64(value.num)))])
            && (value.Object? ==> flat == Flatten(prefix + prefix + key + Ascii("__"), value.fields))
            && (value.Null? || value.Array? ==> flat == [])
  {
    var field := Field(key, value);
    assert [field][..0] == [];
    assert Flatten(prefix, [field]) == FlattenField(prefix, field);
    if value.Object? {
      assert prefix + (prefix + key) + SEPARATOR == prefix + prefix + key + Ascii("__");
    }
  }

  /** One level of nesting joins the two names with two underscores. */
  lemma NestedField(outer: Str, inner: Str, s: Str)
    ensures Flatten([], [Field(outer, Object([Field(inner, String(s))]))])
         == [Property(outer + Ascii("__") + inner, StringValue(s))]
  {
    FlattenOne([], outer, Object([Field(inner, String(s))]));
    assert [] + [] + outer + Ascii("__") == outer + Ascii("__");
    FlattenOne(outer + Ascii("__"), inner, String(s));
  }

  /** The growing vector that all levels share. */
  class Container {
    var items: seq<Property>

    constructor ()
      ensures items == []
    {
      items := [];
    }

    method Push(p: Property)
      modifies this
      ensures items == old(items) + [p]
    {
      items := items + [p];
    }
  }

  /** Appends to what the container holds, and changes none of it. */
  method FlattenProperties(prefix: Str, properties: Map, container: Container)
    modifies container
    ensures container.items == old(container.items) + Flatten(prefix, properties)
    decreases properties
  {
    for i := 0 to |properties|
      invariant container.items == old(container.items) + Flatten(prefix, properties[..i])
    {
      var Field(key, value) := properties[i];
      var prefixedKey := prefix + key;
      match value {
        case String(s) =>
          container.Push(Property(prefixedKey, StringValue(s)));
        case Bool(b) =>
          container.Push(Property(prefixedKey, BoolValue(b)));
        case Number(n) =>
          container.Push(Property(prefixedKey, NumberValue(AsF64(n))));
        case Object(map_) =>
          var inner := prefix + prefixedKey + SEPARATOR;
          FlattenProperties(inner, map_, container);
        case _ =>
      }
      assert properties[..i + 1][..i] == properties[..i];
    }
    assert properties[..|properties|] == properties;
  }

  method FlatProperties(properties: Map) returns (flat: seq<Property>)
    ensures flat == Flatten([], properties)
  {
    var container := new Container();
    FlattenProperties([], properties, container);
    flat := container.items;
  }

  // ---------------------------------------------------------------------------
  // One property a leaf
  // ---------------------------------------------------------------------------

  datatype Leaf = Leaf(path: Path, value: Scalar)

  function Under(key: Str, leaves: seq<Leaf>): (ls: seq<Leaf>)
    ensures |ls| == |leaves|
    ensures forall i :: 0 <= i < |ls| ==> ls[i] == Leaf([key] + leaves[i].path, leaves[i].value)
  {
    seq(|leaves|, i requires 0 <= i < |leaves| => Leaf([key] + leaves[i].path, leaves[i].value))
  }

  /** The strings, booleans and numbers of the tree, depth first in map order. */
  function Leaves(properties: Map): seq<Leaf> {
    if properties == [] then []
    else
      var n := |properties| - 1;
      Leaves(properties[..n]) + LeavesOfField(properties[n])
  }

  function LeavesOfField(field: Field): seq<Leaf> {
    match field.value
    case String(s) => [Leaf([field.key], StringValue(s))]
    case Bool(b) => [Leaf([field.key], BoolValue(b))]
    case Number(n) => [Leaf([field.key], NumberValue(AsF64(n)))]
    case Object(map_) => Under(field.key, Leaves(map_))
    case _ => []
  }

  /** This value stands at the end of the path, through fields with its keys. */
  ghost predicate Reaches(properties: Map, path: Path, value: Json)
    decreases |path|, 1
  {
    exists i :: 0 <= i < |properties| && ReachesFrom(properties[i], path, value)
  }

  ghost predicate ReachesFrom(field: Field, path: Path, value: Json)
    decreases |path|, 0
  {
    && field.key == path[0]
    && if |path| == 1 then field.value == value
       else field.value.Object? && Reaches(field.value.fields, path[1..], value)
  }

  /** What is published for a value; nothing is for arrays, nulls and objects themselves. */
  ghost predicate PublishedAs(value: Json, scalar: Scalar) {
    match value
    case String(s) => scalar == StringValue(s)
    case Bool(b) => scalar == BoolValue(b)
    case Number(n) => scalar == NumberValue(AsF64(n))
    case _ => false
  }

  ghost predicate ShownAt(properties: Map, leaf: Leaf) {
    exists value :: Reaches(properties, leaf.path, value) && PublishedAs(value, leaf.value)
  }

  ghost predicate ShownFrom(field: Field, leaf: Leaf) {
    exists value :: ReachesFrom(field, leaf.path, value) && PublishedAs(value, leaf.value)
  }

  lemma ShownOneMore(before: Map, field: Field, leaf: Leaf)
    ensures ShownAt(before + [field], leaf) <==> ShownAt(before, leaf) || ShownFrom(field, leaf)
  {
    var all := before + [field];
    assert all[|before|] == field && forall i :: 0 <= i < |before| ==> all[i] == before[i];
    if ShownAt(before, leaf) {
      var value :| Reaches(before, leaf.path, value) && PublishedAs(value, leaf.value);
      assert Reaches(all, leaf.path, value);
    }
    if ShownFrom(field, leaf) {
      var value :| ReachesFrom(field, leaf.path, value) && PublishedAs(value, leaf.value);
      assert Reaches(all, leaf.path, value);
    }
  }

  lemma UnderHas(key: Str, leaves: seq<Leaf>, leaf: Leaf)
    ensures leaf in Under(key, leaves) <==>
      |leaf.path| >= 2 && leaf.path[0] == key && Leaf(leaf.path[1..], leaf.value) in leaves
  {
    var under := Under(key, leaves);
    if leaf in under {
      var i :| 0 <= i < |under| && under[i] == leaf;
      assert leaf.path[1..] == leaves[i].path;
    }
    if |leaf.path| >= 2 && leaf.path[0] == key && Leaf(leaf.path[1..], leaf.value) in leaves {
      var i :| 0 <= i < |leaves| && leaves[i] == Leaf(leaf.path[1..], leaf.value);
      assert leaf.path == [key] + leaf.path[1..];
      assert under[i] == leaf;
    }
  }

  /** The leaves are exactly the published values in the tree, each under its path. */
  lemma {:induction false} LeavesAreShown(properties: Map, leaf: Leaf)
    ensures leaf in Leaves(properties) <==> ShownAt(properties, leaf)
    decreases properties, 1
  {
    if properties != [] {
      var before, field := properties[..|properties| - 1], properties[|properties| - 1];
      assert properties == before + [field];
      LeavesAreShown(before, leaf);
      LeavesOfFieldAreShown(field, leaf);
      ShownOneMore(before, field, leaf);
    }
  }

  lemma {:induction false} LeavesOfFieldAreShown(field: Field, leaf: Leaf)
    ensures leaf in LeavesOfField(field) <==> ShownFrom(field, leaf)
    decreases field, 0
  {
    if |leaf.path| == 1 {
      assert leaf.path == [leaf.path[0]];
      assert ShownFrom(field, leaf) <==> field.key == leaf.path[0] && PublishedAs(field.value, leaf.value);
    }
    if field.value.Object? {
      UnderHas(field.key, Leaves(field.value.fields), leaf);
      if |leaf.path| >= 2 {
        LeavesAreShown(field.value.fields, Leaf(leaf.path[1..], leaf.value));
        ShownBelow(field, leaf);
      }
    }
  }

  lemma ShownBelow(field: Field, leaf: Leaf)
    requires field.value.Object? && |leaf.path| >= 2
    ensures ShownFrom(field, leaf) <==>
      field.key == leaf.path[0] && ShownAt(field.value.fields, Leaf(leaf.path[1..], leaf.value))
  {
    if field.key == leaf.path[0] && ShownAt(field.value.fields, Leaf(leaf.path[1..], leaf.value)) {
      var value :| Reaches(field.value.fields, leaf.path[1..], value) && PublishedAs(value, leaf.value);
      assert ReachesFrom(field, leaf.path, value);
    }
  }

  /** The flat list of leaves below the object at path `at`. */
  function Keyed(at: seq<Str>, leaves: seq<Leaf>): (ps: seq<Property>)
    ensures |ps| == |leaves|
    ensures forall i :: 0 <= i < |ps| ==> ps[i] == Property(FlatKey(at + leaves[i].path), leaves[i].value)
  {
    seq(|leaves|, i requires 0 <= i < |leaves| => Property(FlatKey(at + leaves[i].path), leaves[i].value))
  }

  lemma {:induction false} FlattenBelow(at: seq<Str>, properties: Map)
    ensures Flatten(Prefix(at), properties) == Keyed(at, Leaves(properties))
    decreases properties, 1
  {
    if properties != [] {
      var n := |properties| - 1;
      FlattenBelow(at, properties[..n]);
      FlattenFieldBelow(at, properties[n]);
    }
  }

  lemma {:induction false} FlattenFieldBelow(at: seq<Str>, field: Field)
    ensures FlattenField(Prefix(at), field) == Keyed(at, LeavesOfField(field))
    decreases field, 0
  {
    var path: Path := at + [field.key];
    assert path[..|at|] == at;
    match field.value
    case Object(map_) =>
      assert Prefix(path) == Prefix(at) + (Prefix(at) + field.key) + SEPARATOR;
      FlattenBelow(path, map_);
      var leaves := Leaves(map_);
      forall i | 0 <= i < |leaves| ensures Keyed(path, leaves)[i] == Keyed(at, Under(field.key, leaves))[i] {
        assert path + leaves[i].path == at + ([field.key] + leaves[i].path);
      }
    case _ =>
  }

  /** Flattening yields one property for every leaf, in order, under the key of its path. */
  lemma FlattenIsKeyedLeaves(properties: Map)
    ensures Flatten([], properties) == Keyed([], Leaves(properties))
  {
    FlattenBelow([], properties);
  }

  // ---------------------------------------------------------------------------
  // The tree that can be rebuilt: no arrays, nulls or empty objects
  // ---------------------------------------------------------------------------

  datatype Node = Value(value: Scalar) | Branch(children: seq<Child>)

  datatype Child = Child(key: Str, node: Node)

  function Prune(properties: Map): seq<Child> {
    if properties == [] then []
    else
      var n := |properties| - 1;
      Prune(properties[..n]) + PruneField(properties[n])
  }

  function PruneField(field: Field): seq<Child> {
    match field.value
    case String(s) => [Child(field.key, Value(StringValue(s)))]
    case Bool(b) => [Child(field.key, Value(BoolValue(b)))]
    case Number(n) => [Child(field.key, Value(NumberValue(AsF64(n))))]
    case Object(map_) => if Prune(map_) == [] then [] else [Child(field.key, Branch(Prune(map_)))]
    case _ => []
  }

  predicate EndsWithBranch(children: seq<Child>, key: Str) {
    var n := |children| - 1;
    children != [] && children[n].key == key && children[n].node.Branch?
  }

  /** A leaf joins the branch before it if that has its key, and opens a branch otherwise. */
  function Insert(children: seq<Child>, path: Path, value: Scalar): (result: seq<Child>)
    ensures result != []
    decreases |path|
  {
    var key, n := path[0], |children| - 1;
    if |path| == 1 then children + [Child(key, Value(value))]
    else if EndsWithBranch(children, key) then
      children[..n] + [Child(key, Branch(Insert(children[n].node.children, path[1..], value)))]
    else children + [Child(key, Branch(Insert([], path[1..], value)))]
  }

  function Rebuild(children: seq<Child>, leaves: seq<Leaf>): seq<Child> {
    if leaves == [] then children
    else
      var n := |leaves| - 1;
      Insert(Rebuild(children, leaves[..n]), leaves[n].path, leaves[n].value)
  }

  function LeavesRead(flat: seq<Property>): (leaves: seq<Leaf>)
    ensures |leaves| == |flat|
    ensures forall i :: 0 <= i < |flat| ==> leaves[i] == Leaf(PathOf(flat[i].key), flat[i].value)
  {
    seq(|flat|, i requires 0 <= i < |flat| => Leaf(PathOf(flat[i].key), flat[i].value))
  }

  /** The inverse of the flattener, from the flat list alone. */
  function Unflatten(flat: seq<Property>): seq<Child> {
    Rebuild([], LeavesRead(flat))
  }

  /** The keys of a map are distinct at every level. */
  predicate DistinctKeys(properties: Map) {
    && (forall i, j :: 0 <= i < j < |properties| ==> properties[i].key != properties[j].key)
    && (forall i :: 0 <= i < |properties| && properties[i].value.Object? ==> DistinctKeys(properties[i].value.fields))
  }

  lemma {:induction false} RebuildConcat(children: seq<Child>, a: seq<Leaf>, b: seq<Leaf>)
    ensures Rebuild(children, a + b) == Rebuild(Rebuild(children, a), b)
  {
    if b == [] {
      assert a + b == a;
    } else {
      var before, leaf := b[..|b| - 1], b[|b| - 1];
      RebuildConcat(children, a, before);
      RebuildStep(children, a + before, leaf);
      assert a + b == a + before + [leaf];
    }
  }

  lemma InsertNew(children: seq<Child>, key: Str, path: Path, value: Scalar)
    requires !EndsWithBranch(children, key)
    ensures Insert(children, [key] + path, value) == children + [Child(key, Branch(Insert([], path, value)))]
  {
    assert ([key] + path)[1..] == path;
  }

  lemma InsertInto(children: seq<Child>, key: Str, inner: seq<Child>, path: Path, value: Scalar)
    ensures Insert(children + [Child(key, Branch(inner))], [key] + path, value)
         == children + [Child(key, Branch(Insert(inner, path, value)))]
  {
    assert ([key] + path)[1..] == path;
    assert (children + [Child(key, Branch(inner))])[..|children|] == children;
  }

  lemma {:induction false} RebuildUnder(children: seq<Child>, key: Str, leaves: seq<Leaf>)
    requires leaves != []
    requires children != [] ==> children[|children| - 1].key != key
    ensures Rebuild(children, Under(key, leaves)) == children + [Child(key, Branch(Rebuild([], leaves)))]
  {
    var n := |leaves| - 1;
    var last := leaves[n];
    assert Under(key, leaves)[..n] == Under(key, leaves[..n]);
    if n == 0 {
      assert leaves[..n] == [];
      InsertNew(children, key, last.path, last.value);
    } else {
      RebuildUnder(children, key, leaves[..n]);
      InsertInto(children, key, Rebuild([], leaves[..n]), last.path, last.value);
    }
  }

  lemma {:induction false} PruneKeys(properties: Map, i: nat)
    requires i < |Prune(properties)|
    ensures exists j :: 0 <= j < |properties| && properties[j].key == Prune(properties)[i].key
  {
    var n := |properties| - 1;
    if i < |Prune(properties[..n])| {
      PruneKeys(properties[..n], i);
      var j :| 0 <= j < n && properties[..n][j].key == Prune(properties[..n])[i].key;
      assert properties[j].key == Prune(properties)[i].key;
    } else {
      assert properties[n].key == Prune(properties)[i].key;
    }
  }

  lemma OneMoreField(before: Map, field: Field)
    ensures Leaves(before + [field]) == Leaves(before) + LeavesOfField(field)
    ensures Prune(before + [field]) == Prune(before) + PruneField(field)
  {
    assert (before + [field])[..|before|] == before;
  }

  lemma DistinctFromLast(before: Map, field: Field)
    requires DistinctKeys(before + [field])
    ensures DistinctKeys(before) && (field.value.Object? ==> DistinctKeys(field.value.fields))
    ensures Prune(before) != [] ==> Prune(before)[|Prune(before)| - 1].key != field.key
  {
    var all := before + [field];
    assert all[|before|] == field && forall i :: 0 <= i < |before| ==> all[i] == before[i];
    if Prune(before) != [] {
      PruneKeys(before, |Prune(before)| - 1);
    }
  }

  lemma RebuildOneMore(before: Map, field: Field)
    requires Rebuild([], Leaves(before)) == Prune(before)
    requires Rebuild(Prune(before), LeavesOfField(field)) == Prune(before) + PruneField(field)
    ensures Rebuild([], Leaves(before + [field])) == Prune(before + [field])
  {
    OneMoreField(before, field);
    RebuildConcat([], Leaves(before), LeavesOfField(field));
  }

  lemma {:induction false} RebuildLeaves(properties: Map)
    requires DistinctKeys(properties)
    ensures Rebuild([], Leaves(properties)) == Prune(properties)
    decreases properties, 1
  {
    if properties != [] {
      var before, field := properties[..|properties| - 1], properties[|properties| - 1];
      assert properties == before + [field];
      DistinctFromLast(before, field);
      RebuildLeaves(before);
      RebuildField(Prune(before), field);
      RebuildOneMore(before, field);
    }
  }

  lemma {:induction false} RebuildField(children: seq<Child>, field: Field)
    requires field.value.Object? ==> DistinctKeys(field.value.fields)
    requires children != [] ==> children[|children| - 1].key != field.key
    ensures Rebuild(children, LeavesOfField(field)) == children + PruneField(field)
    decreases field, 0
  {
    match field.value
    case Object(map_) =>
      RebuildLeaves(map_);
      RebuildBranch(children, field.key, map_);
    case _ => RebuildScalar(children, field);
  }

  lemma RebuildScalar(children: seq<Child>, field: Field)
    requires !field.value.Object?
    ensures Rebuild(children, LeavesOfField(field)) == children + PruneField(field)
  {
    match field.value
    case String(s) => RebuildSingle(children, Leaf([field.key], StringValue(s)));
    case Bool(b) => RebuildSingle(children, Leaf([field.key], BoolValue(b)));
    case Number(n) => RebuildSingle(children, Leaf([field.key], NumberValue(AsF64(n))));
    case _ =>
  }

  lemma RebuildBranch(children: seq<Child>, key: Str, properties: Map)
    requires children != [] ==> children[|children| - 1].key != key
    requires Rebuild([], Leaves(properties)) == Prune(properties)
    ensures var field := Field(key, Object(properties));
            Rebuild(children, LeavesOfField(field)) == children + PruneField(field)
  {
    var field := Field(key, Object(properties));
    OfObject(key, properties);
    RebuildObject(children, key, Leaves(properties));
    assert Rebuild(children, LeavesOfField(field)) == Rebuild(children, Under(key, Leaves(properties)));
  }

  lemma OfObject(key: Str, properties: Map)
    ensures LeavesOfField(Field(key, Object(properties))) == Under(key, Leaves(properties))
    ensures PruneField(Field(key, Object(properties)))
         == if Prune(properties) == [] then [] else [Child(key, Branch(Prune(properties)))]
  {
  }

  lemma RebuildObject(children: seq<Child>, key: Str, leaves: seq<Leaf>)
    requires children != [] ==> children[|children| - 1].key != key
    ensures var inner := Rebuild([], leaves);
            Rebuild(children, Under(key, leaves)) == children + if inner == [] then [] else [Child(key, Branch(inner))]
  {
    if leaves == [] {
      assert Under(key, leaves) == [];
    } else {
      RebuildUnder(children, key, leaves);
    }
  }

  lemma RebuildSingle(children: seq<Child>, leaf: Leaf)
    ensures Rebuild(children, [leaf]) == Insert(children, leaf.path, leaf.value)
  {
    assert [leaf][..0] == [];
  }

  function ChildLeaves(children: seq<Child>): seq<Leaf> {
    if children == [] then []
    else
      var n := |children| - 1;
      ChildLeaves(children[..n]) + LeavesOfChild(children[n])
  }

  function LeavesOfChild(child: Child): seq<Leaf> {
    match child.node
    case Value(v) => [Leaf([child.key], v)]
    case Branch(children) => Under(child.key, ChildLeaves(children))
  }

  lemma LeavesOfExtended(children: seq<Child>, child: Child)
    ensures ChildLeaves(children + [child]) == ChildLeaves(children) + LeavesOfChild(child)
  {
    assert (children + [child])[..|children|] == children;
  }

  lemma LeavesOfBranchAtEnd(before: seq<Child>, key: Str, inner: seq<Child>)
    ensures ChildLeaves(before + [Child(key, Branch(inner))]) == ChildLeaves(before) + Under(key, ChildLeaves(inner))
  {
    LeavesOfExtended(before, Child(key, Branch(inner)));
  }

  lemma UnderExtended(before: seq<Leaf>, key: Str, leaves: seq<Leaf>, leaf: Leaf)
    ensures before + Under(key, leaves + [leaf]) == before + Under(key, leaves) + [Leaf([key] + leaf.path, leaf.value)]
  {
  }

  /** A branch at the end whose own leaves grew by one. */
  lemma LeavesOfGrownBranch(
    before: seq<Child>, key: Str, inner: seq<Child>, grown: seq<Child>, path: Path, value: Scalar
  )
    requires ChildLeaves(grown) == ChildLeaves(inner) + [Leaf(path, value)]
    ensures ChildLeaves(before + [Child(key, Branch(grown))])
         == ChildLeaves(before) + Under(key, ChildLeaves(inner)) + [Leaf([key] + path, value)]
  {
    LeavesOfBranchAtEnd(before, key, grown);
    UnderExtended(ChildLeaves(before), key, ChildLeaves(inner), Leaf(path, value));
  }

  lemma GrownBranchAddsLeaf(before: seq<Child>, key: Str, inner: seq<Child>, rest: Path, value: Scalar)
    requires ChildLeaves(Insert(inner, rest, value)) == ChildLeaves(inner) + [Leaf(rest, value)]
    ensures var children := before + [Child(key, Branch(inner))];
            ChildLeaves(Insert(children, [key] + rest, value)) == ChildLeaves(children) + [Leaf([key] + rest, value)]
  {
    InsertInto(before, key, inner, rest, value);
    LeavesOfGrownBranch(before, key, inner, Insert(inner, rest, value), rest, value);
    LeavesOfBranchAtEnd(before, key, inner);
  }

  lemma NewBranchAddsLeaf(children: seq<Child>, key: Str, rest: Path, value: Scalar)
    requires !EndsWithBranch(children, key)
    requires ChildLeaves(Insert([], rest, value)) == [Leaf(rest, value)]
    ensures ChildLeaves(Insert(children, [key] + rest, value)) == ChildLeaves(children) + [Leaf([key] + rest, value)]
  {
    InsertNew(children, key, rest, value);
    LeavesOfBranchAtEnd(children, key, Insert([], rest, value));
  }

  lemma {:induction false} InsertAddsLeaf(children: seq<Child>, path: Path, value: Scalar)
    ensures ChildLeaves(Insert(children, path, value)) == ChildLeaves(children) + [Leaf(path, value)]
    decreases |path|
  {
    var key := path[0];
    if |path| == 1 {
      LeavesOfExtended(children, Child(key, Value(value)));
      assert path == [key];
    } else {
      var rest: Path := path[1..];
      assert path == [key] + rest;
      if EndsWithBranch(children, key) {
        var before, last := children[..|children| - 1], children[|children| - 1];
        assert children == before + [Child(key, Branch(last.node.children))];
        InsertAddsLeaf(last.node.children, rest, value);
        GrownBranchAddsLeaf(before, key, last.node.children, rest, value);
      } else {
        InsertAddsLeaf([], rest, value);
        NewBranchAddsLeaf(children, key, rest, value);
      }
    }
  }

  lemma RebuildStep(children: seq<Child>, leaves: seq<Leaf>, leaf: Leaf)
    ensures Rebuild(children, leaves + [leaf]) == Insert(Rebuild(children, leaves), leaf.path, leaf.value)
  {
    assert (leaves + [leaf])[..|leaves|] == leaves;
  }

  lemma RebuildKeepsOneMore(before: seq<Leaf>, leaf: Leaf)
    requires ChildLeaves(Rebuild([], before)) == before
    ensures ChildLeaves(Rebuild([], before + [leaf])) == before + [leaf]
  {
    RebuildStep([], before, leaf);
    InsertAddsLeaf(Rebuild([], before), leaf.path, leaf.value);
  }

  lemma {:induction false} RebuildKeepsLeaves(leaves: seq<Leaf>)
    ensures ChildLeaves(Rebuild([], leaves)) == leaves
  {
    if leaves != [] {
      var before, leaf := leaves[..|leaves| - 1], leaves[|leaves| - 1];
      assert leaves == before + [leaf];
      RebuildKeepsLeaves(before);
      RebuildKeepsOneMore(before, leaf);
    }
  }

  /** The property tree can be rebuilt from its flat list, but for arrays, nulls and empty
      objects, exactly when every leaf path is readable. */
  lemma UnflattenFlattenExactly(properties: Map)
    requires DistinctKeys(properties)
    ensures Unflatten(Flatten([], properties)) == Prune(properties) <==>
      forall i :: 0 <= i < |Leaves(properties)| ==> Readable(Leaves(properties)[i].path)
  {
    var leaves, flat := Leaves(properties), Flatten([], properties);
    FlattenIsKeyedLeaves(properties);
    RebuildLeaves(properties);
    RebuildKeepsLeaves(leaves);
    RebuildKeepsLeaves(LeavesRead(flat));
    ReadsLeavesExactly(leaves);
  }

  predicate HasEmptyBranch(children: seq<Child>) {
    exists i :: 0 <= i < |children| && children[i].node.Branch? &&
      (children[i].node.children == [] || HasEmptyBranch(children[i].node.children))
  }

  lemma {:induction false} PruneHasNoEmptyBranch(properties: Map)
    ensures !HasEmptyBranch(Prune(properties))
    decreases properties, 1
  {
    if properties != [] {
      var n := |properties| - 1;
      PruneHasNoEmptyBranch(properties[..n]);
      PruneFieldHasNoEmptyBranch(properties[n]);
    }
  }

  lemma {:induction false} PruneFieldHasNoEmptyBranch(field: Field)
    ensures !HasEmptyBranch(PruneField(field))
    decreases field, 0
  {
    if field.value.Object? {
      PruneHasNoEmptyBranch(field.value.fields);
    }
  }

  /** The rebuilt tree has all the leaves of the original in order, and no empty branch. */
  lemma PruneKeepsLeaves(properties: Map)
    requires DistinctKeys(properties)
    ensures ChildLeaves(Prune(properties)) == Leaves(properties) && !HasEmptyBranch(Prune(properties))
  {
    RebuildLeaves(properties);
    RebuildKeepsLeaves(Leaves(properties));
    PruneHasNoEmptyBranch(properties);
  }

  lemma ReadsLeavesExactly(leaves: seq<Leaf>)
    ensures LeavesRead(Keyed([], leaves)) == leaves <==>
      forall i :: 0 <= i < |leaves| ==> Readable(leaves[i].path)
  {
    var read := LeavesRead(Keyed([], leaves));
    forall i | 0 <= i < |leaves| ensures read[i] == leaves[i] <==> Readable(leaves[i].path) {
      assert [] + leaves[i].path == leaves[i].path;
      ReadsBackExactly(leaves[i].path);
    }
    if read == leaves {
      assert forall i :: 0 <= i < |leaves| ==> read[i] == leaves[i];
    }
  }
}
