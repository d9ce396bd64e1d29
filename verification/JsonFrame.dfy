/** What writing one JSON path leaves alone, what it creates, and when it fails. */
module JsonFrame {
  import opened Texts
  import opened Decimals
  import opened JsonPointer
  import opened JsonDocuments

  // ------------------------------------------------------------------ one container

  function NameList(ms: Members): seq<Text> {
    match ms
    case NoMembers => []
    case Member(name, _, more) => [name] + NameList(more)
  }

  /** Setting a member touches no other, and a new name comes last. */
  lemma {:induction false} MemberFrame(ms: Members, name: Text, value: Json, other: Text)
    ensures other != name ==> GetMember(SetMember(ms, name, value), other) == GetMember(ms, other)
    ensures NameList(SetMember(ms, name, value))
            == if name in NameList(ms) then NameList(ms) else NameList(ms) + [name]
  {
    match ms
    case NoMembers =>
    case Member(_, _, more) => MemberFrame(more, name, value, other);
  }

  /** Setting an item touches no other, and a list that is too short is filled up with empty objects. */
  lemma {:induction false} ItemFrame(items: Items, index: nat, value: Json, other: nat)
    ensures other != index ==>
              GetItem(SetItem(items, index, value), other)
              == if other < Length(items) then GetItem(items, other)
                 else if other < index then Some(Object(NoMembers)) else None
    ensures Length(SetItem(items, index, value)) == if index < Length(items) then Length(items) else index + 1
    ensures GetItem(items, other).Some? <==> other < Length(items)
    decreases index, other
  {
    var tail := if items.NoItems? then NoItems else items.tail;
    if index > 0 && other > 0 {
      ItemFrame(tail, index - 1, value, other - 1);
    } else if index > 0 {
      ItemFrame(tail, index - 1, value, 0);
    } else {
      ItemsAfter(items, other);
      assert SetItem(items, 0, value) == Item(value, tail);
    }
  }

  lemma {:induction false} ItemsAfter(items: Items, other: nat)
    ensures GetItem(items, other).Some? <==> other < Length(items)
  {
    if items.Item? && other > 0 { ItemsAfter(items.tail, other - 1); }
  }

  /** Two segments address the same slot of a container. */
  predicate SameSlot(j: Json, a: Text, b: Text) {
    if j.Array? then ParseIndex(a).Some? && ParseIndex(a) == ParseIndex(b) else a == b
  }

  lemma {:induction false} ChildFrame(j: Json, segment: Text, value: Json, other: Text)
    requires IsContainer(j) && SetChild(j, segment, value).Some?
    ensures !SameSlot(j, segment, other) && GetChild(j, other).Some? ==>
              GetChild(SetChild(j, segment, value).value, other) == GetChild(j, other)
    ensures SameSlot(j, segment, other) ==> GetChild(j, segment) == GetChild(j, other)
    ensures SameSlot(j, segment, other) ==> GetChild(SetChild(j, segment, value).value, other) == Some(value)
    ensures SetChild(j, segment, value).value.Array? == j.Array?
  {
    match j
    case Object(ms) =>
      MemberFrame(ms, segment, value, other);
      JsonSlot(ms, segment, value);
    case Array(items) =>
      if ParseIndex(other).Some? {
        ItemFrame(items, ParseIndex(segment).value, value, ParseIndex(other).value);
        ListSlot(items, ParseIndex(segment).value, value);
      }
  }

  lemma {:induction false} JsonSlot(ms: Members, name: Text, value: Json)
    ensures GetMember(SetMember(ms, name, value), name) == Some(value)
  {
    if ms.Member? { JsonSlot(ms.more, name, value); }
  }

  lemma {:induction false} ListSlot(items: Items, index: nat, value: Json)
    ensures GetItem(SetItem(items, index, value), index) == Some(value)
    decreases index
  {
    if index > 0 { ListSlot(if items.NoItems? then NoItems else items.tail, index - 1, value); }
  }

  // --------------------------------------------------------------------------- paths

  /** The paths part at a container that both reach. */
  predicate Parts(j: Json, p: Path, q: Path)
    decreases |p|
  {
    && p != [] && q != [] && IsContainer(j)
    && (SameSlot(j, p[0], q[0]) ==>
          && GetChild(j, p[0]).Some? && Parts(GetChild(j, p[0]).value, p[1..], q[1..]))
  }

  /** Writing at one path changes nothing that is read at a path that parts from it. */
  lemma {:induction false} PutFrame(j: Json, p: Path, q: Path, value: Text)
    requires IsContainer(j) && p != [] && Parts(j, p, q)
    requires SetPath(j, p, value).Some? && GetPath(j, q).Some?
    ensures GetPath(SetPath(j, p, value).value, q) == GetPath(j, q)
    decreases |p|
  {
    hide SetChild, GetChild, SameSlot;
    if |p| == 1 {
      ChildFrame(j, p[0], String(value), q[0]);
    } else {
      var found := GetChild(j, p[0]);
      var child := if found.Some? && IsContainer(found.value) then found.value else Object(NoMembers);
      var written := SetPath(child, p[1..], value).value;
      ChildFrame(j, p[0], written, q[0]);
      if SameSlot(j, p[0], q[0]) {
        PutFrame(child, p[1..], q[1..], value);
      }
    }
  }

  /** Every list on the way is addressed by an index; what is missing on the way never fails. */
  predicate Addressable(j: Json, path: Path)
    decreases |path|
  {
    path != [] ==>
      && (j.Array? ==> ParseIndex(path[0]).Some?)
      && (GetChild(j, path[0]).Some? && IsContainer(GetChild(j, path[0]).value) && |path| > 1 ==>
            Addressable(GetChild(j, path[0]).value, path[1..]))
  }

  lemma {:induction false} PutSucceedsExactly(j: Json, path: Path, value: Text)
    requires IsContainer(j) && path != []
    ensures SetPath(j, path, value).Some? <==> Addressable(j, path)
    decreases |path|
  {
    hide SetItem, SetMember, GetChild;
    if |path| > 1 {
      var found := GetChild(j, path[0]);
      if found.Some? && IsContainer(found.value) {
        PutSucceedsExactly(found.value, path[1..], value);
      } else {
        NewObjects(path[1..], value);
      }
    }
  }

  /** Objects within objects, down to the text. */
  function Chain(path: Path, value: Text): Json {
    if path == [] then String(value) else Object(Member(path[0], Chain(path[1..], value), NoMembers))
  }

  lemma {:induction false} NewObjects(path: Path, value: Text)
    requires path != []
    ensures SetPath(Object(NoMembers), path, value) == Some(Chain(path, value))
    decreases |path|
  {
    if |path| == 1 {
      assert path[1..] == [];
    } else {
      NewObjects(path[1..], value);
    }
  }

  /** Where a path leaves the document, it is continued by objects, whatever stood there. */
  lemma {:induction false} MissingPathIsObjects(j: Json, path: Path, value: Text)
    requires IsContainer(j) && path != []
    requires GetChild(j, path[0]).Some? ==> !IsContainer(GetChild(j, path[0]).value)
    ensures SetPath(j, path, value) == SetChild(j, path[0], Chain(path[1..], value))
  {
    hide SetChild, GetChild;
    if |path| == 1 {
      assert path[1..] == [];
    } else {
      NewObjects(path[1..], value);
    }
  }
}
