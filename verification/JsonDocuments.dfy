/** JSON documents, their string leaves, and writing values back one path at a time. */
module JsonDocuments {
  import opened Texts
  import opened Decimals
  import opened JsonPointer

  /** Numbers, booleans and null are kept by their literal. */
  datatype Json =
    | Object(members: Members)
    | Array(items: Items)
    | String(text: Text)
    | Literal(literal: Text)

  /** Members in file order, as a Python dictionary keeps them. */
  datatype Members = NoMembers | Member(name: Text, value: Json, more: Members)

  datatype Items = NoItems | Item(head: Json, tail: Items)

  predicate IsContainer(j: Json) {
    j.Object? || j.Array?
  }

  function Names(ms: Members): set<Text> {
    match ms
    case NoMembers => {}
    case Member(name, _, more) => {name} + Names(more)
  }

  function Length(items: Items): nat {
    match items
    case NoItems => 0
    case Item(_, tail) => 1 + Length(tail)
  }

  /** A document as `json.load` returns it: no object repeats a name. */
  predicate WellFormed(j: Json) {
    match j
    case Object(ms) => WellFormedMembers(ms)
    case Array(items) => WellFormedItems(items)
    case _ => true
  }

  predicate WellFormedMembers(ms: Members) {
    match ms
    case NoMembers => true
    case Member(name, value, more) => name !in Names(more) && WellFormed(value) && WellFormedMembers(more)
  }

  predicate WellFormedItems(items: Items) {
    match items
    case NoItems => true
    case Item(head, tail) => WellFormed(head) && WellFormedItems(tail)
  }

  // ------------------------------------------------------------------- leaves

  datatype Leaf = Leaf(path: Path, value: Text)

  function Under(segment: Text, leaves: seq<Leaf>): (r: seq<Leaf>)
    ensures |r| == |leaves|
  {
    if leaves == [] then []
    else [Leaf([segment] + leaves[0].path, leaves[0].value)] + Under(segment, leaves[1..])
  }

  /** The string leaves in document order, with their paths from this node. */
  function Leaves(j: Json): seq<Leaf> {
    match j
    case Object(ms) => MemberLeaves(ms)
    case Array(items) => ItemLeaves(items, 0)
    case String(text) => [Leaf([], text)]
    case Literal(_) => []
  }

  function MemberLeaves(ms: Members): seq<Leaf> {
    match ms
    case NoMembers => []
    case Member(name, value, more) => Under(name, Leaves(value)) + MemberLeaves(more)
  }

  function ItemLeaves(items: Items, index: nat): seq<Leaf> {
    match items
    case NoItems => []
    case Item(head, tail) => Under(Decimal(index), Leaves(head)) + ItemLeaves(tail, index + 1)
  }

  // -------------------------------------------------------- writing at a path

  function GetMember(ms: Members, name: Text): Option<Json> {
    match ms
    case NoMembers => None
    case Member(n, value, more) => if n == name then Some(value) else GetMember(more, name)
  }

  function GetItem(items: Items, index: nat): Option<Json> {
    match items
    case NoItems => None
    case Item(head, tail) => if index == 0 then Some(head) else GetItem(tail, index - 1)
  }

  /** A child, if the container has one there. */
  function GetChild(j: Json, segment: Text): Option<Json> {
    match j
    case Object(ms) => GetMember(ms, segment)
    case Array(items) =>
      var index := ParseIndex(segment);
      if index.None? then None else GetItem(items, index.value)
    case _ => None
  }

  /** Dictionary assignment: in place for a known name, at the end for a new one. */
  function SetMember(ms: Members, name: Text, value: Json): Members {
    match ms
    case NoMembers => Member(name, value, NoMembers)
    case Member(n, v, more) => if n == name then Member(n, value, more) else Member(n, v, SetMember(more, name, value))
  }

  /** List assignment; a list that is too short is padded with empty objects. */
  function SetItem(items: Items, index: nat, value: Json): Items
    decreases index
  {
    match items
    case NoItems => Item(if index == 0 then value else Object(NoMembers), if index == 0 then NoItems
                                                                          else SetItem(NoItems, index - 1, value))
    case Item(head, tail) => if index == 0 then Item(value, tail) else Item(head, SetItem(tail, index - 1, value))
  }

  /** Assigning a child; a list cannot be addressed by a segment that is no index. */
  function SetChild(j: Json, segment: Text, value: Json): (r: Option<Json>)
    requires IsContainer(j)
    ensures r.Some? ==> IsContainer(r.value)
  {
    match j
    case Object(ms) => Some(Object(SetMember(ms, segment, value)))
    case Array(items) =>
      var index := ParseIndex(segment);
      if index.None? then None else Some(Array(SetItem(items, index.value, value)))
  }

  /** Writes a string at a path, creating objects on the way where no container stands. */
  function SetPath(j: Json, path: Path, value: Text): (r: Option<Json>)
    requires IsContainer(j) && path != []
    ensures r.Some? ==> IsContainer(r.value)
    decreases |path|
  {
    if |path| == 1 then SetChild(j, path[0], String(value))
    else
      var found := GetChild(j, path[0]);
      var child := if found.Some? && IsContainer(found.value) then found.value else Object(NoMembers);
      var written := SetPath(child, path[1..], value);
      if written.None? then None else SetChild(j, path[0], written.value)
  }

  function GetPath(j: Json, path: Path): Option<Json>
    decreases |path|
  {
    if path == [] then Some(j)
    else
      var child := GetChild(j, path[0]);
      if child.None? then None else GetPath(child.value, path[1..])
  }

  // ------------------------------------------------------- what it amounts to

  /** The document with its string leaves, in document order, replaced by `values`. */
  function WithLeaves(j: Json, values: seq<Text>): Json
    requires |values| == |Leaves(j)|
  {
    match j
    case Object(ms) => Object(MembersWith(ms, values))
    case Array(items) => Array(ItemsWith(items, 0, values))
    case String(_) => String(values[0])
    case Literal(_) => j
  }

  function MembersWith(ms: Members, values: seq<Text>): Members
    requires |values| == |MemberLeaves(ms)|
  {
    match ms
    case NoMembers => NoMembers
    case Member(name, value, more) =>
      var n := |Leaves(value)|;
      Member(name, WithLeaves(value, values[..n]), MembersWith(more, values[n..]))
  }

  function ItemsWith(items: Items, index: nat, values: seq<Text>): Items
    requires |values| == |ItemLeaves(items, index)|
  {
    match items
    case NoItems => NoItems
    case Item(head, tail) =>
      var n := |Leaves(head)|;
      Item(WithLeaves(head, values[..n]), ItemsWith(tail, index + 1, values[n..]))
  }

  /** Everything but the strings: kinds, names, order, numbers, booleans and nulls. */
  function Shape(j: Json): Json {
    match j
    case Object(ms) => Object(MemberShapes(ms))
    case Array(items) => Array(ItemShapes(items))
    case String(_) => String([])
    case Literal(_) => j
  }

  function MemberShapes(ms: Members): Members {
    match ms
    case NoMembers => NoMembers
    case Member(name, value, more) => Member(name, Shape(value), MemberShapes(more))
  }

  function ItemShapes(items: Items): Items {
    match items
    case NoItems => NoItems
    case Item(head, tail) => Item(Shape(head), ItemShapes(tail))
  }
}
