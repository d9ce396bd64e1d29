/** Giving a target document the shape of its source while keeping its translations. */
module JsonSync {
  import opened Texts
  import opened Decimals
  import opened JsonPointer
  import opened JsonDocuments
  import opened JsonLens

  function MembersOf(j: Option<Json>): Members {
    if j.Some? && j.value.Object? then j.value.members else NoMembers
  }

  function ItemsOf(j: Option<Json>): Items {
    if j.Some? && j.value.Array? then j.value.items else NoItems
  }

  /** The source node with the target's strings where the target has some. */
  function Synchronize(source: Json, target: Option<Json>): Json {
    match source
    case Object(ms) => Object(SynchronizeMembers(ms, MembersOf(target)))
    case Array(items) => Array(SynchronizeItems(items, ItemsOf(target)))
    case String(_) => if target.Some? && target.value.String? then target.value else source
    case Literal(_) => source
  }

  function SynchronizeMembers(ms: Members, target: Members): Members {
    match ms
    case NoMembers => NoMembers
    case Member(name, value, more) =>
      Member(name, Synchronize(value, GetMember(target, name)), SynchronizeMembers(more, target))
  }

  function SynchronizeItems(items: Items, target: Items): Items {
    match items
    case NoItems => NoItems
    case Item(head, tail) =>
      if target.Item? then Item(Synchronize(head, Some(target.head)), SynchronizeItems(tail, target.tail))
      else Item(Synchronize(head, None), SynchronizeItems(tail, NoItems))
  }

  /** The target's string for a leaf of the source: the one at the same path, reached through
      containers of the same kinds. */
  function TargetString(source: Json, target: Option<Json>, path: Path): Option<Text>
    decreases |path|
  {
    if target.None? then None
    else if path == [] then
      if source.String? && target.value.String? then Some(target.value.text) else None
    else if (source.Object? && target.value.Object?) || (source.Array? && target.value.Array?) then
      var child := GetChild(source, path[0]);
      if child.None? then None else TargetString(child.value, GetChild(target.value, path[0]), path[1..])
    else None
  }

  // ------------------------------------------------------------------- shape

  lemma {:induction false} SyncKeepsShape(source: Json, target: Option<Json>)
    ensures Shape(Synchronize(source, target)) == Shape(source)
    ensures WellFormed(source) ==> WellFormed(Synchronize(source, target))
  {
    match source
    case Object(ms) => SyncMembersKeepShape(ms, MembersOf(target));
    case Array(items) => SyncItemsKeepShape(items, ItemsOf(target));
    case _ =>
  }

  lemma {:induction false} SyncMembersKeepShape(ms: Members, target: Members)
    ensures MemberShapes(SynchronizeMembers(ms, target)) == MemberShapes(ms)
    ensures Names(SynchronizeMembers(ms, target)) == Names(ms)
    ensures WellFormedMembers(ms) ==> WellFormedMembers(SynchronizeMembers(ms, target))
  {
    match ms
    case NoMembers =>
    case Member(name, value, more) =>
      SyncKeepsShape(value, GetMember(target, name));
      SyncMembersKeepShape(more, target);
  }

  lemma {:induction false} SyncItemsKeepShape(items: Items, target: Items)
    ensures ItemShapes(SynchronizeItems(items, target)) == ItemShapes(items)
    ensures WellFormedItems(items) ==> WellFormedItems(SynchronizeItems(items, target))
  {
    match items
    case NoItems =>
    case Item(head, tail) =>
      SyncKeepsShape(head, if target.Item? then Some(target.head) else None);
      SyncItemsKeepShape(tail, if target.Item? then target.tail else NoItems);
  }

  // -------------------------------------------------------------- leaf by leaf

  /** What a leaf of the source carries after synchronising. */
  function SyncedLeaf(source: Json, target: Option<Json>, leaf: Leaf): Leaf {
    var found := TargetString(source, target, leaf.path);
    Leaf(leaf.path, if found.Some? then found.value else leaf.value)
  }

  predicate LeavesSynced(source: Json, target: Option<Json>, before: seq<Leaf>, after: seq<Leaf>) {
    |before| == |after| && forall i :: 0 <= i < |before| ==> after[i] == SyncedLeaf(source, target, before[i])
  }

  /** Every leaf of the result takes the target's string exactly where `TargetString` finds one. */
  lemma {:induction false} SyncedLeaves(source: Json, target: Option<Json>)
    requires WellFormed(source)
    ensures LeavesSynced(source, target, Leaves(source), Leaves(Synchronize(source, target)))
    decreases source, 2
  {
    match source
    case Object(ms) => SyncedMemberLeaves(NoMembers, ms, target);
    case Array(items) => SyncedItemLeaves(NoItems, items, target);
    case String(_) =>
    case Literal(_) =>
  }

  lemma {:induction false} ChildLeavesSynced(source: Json, target: Option<Json>, segment: Text, child: Json,
        targetChild: Option<Json>)
    requires GetChild(source, segment) == Some(child)
    requires (target.Some? && ((source.Object? && target.value.Object?) || (source.Array? && target.value.Array?)) &&
              GetChild(target.value, segment) == targetChild)
             || (targetChild.None? && !(target.Some?
                && ((source.Object? && target.value.Object?) || (source.Array? && target.value.Array?))))
    requires LeavesSynced(child, targetChild, Leaves(child), Leaves(Synchronize(child, targetChild)))
    ensures LeavesSynced(source, target, Under(segment, Leaves(child)),
            Under(segment, Leaves(Synchronize(child, targetChild))))
  {
    UnderAt(segment, Leaves(child));
    UnderAt(segment, Leaves(Synchronize(child, targetChild)));
    forall i | 0 <= i < |Leaves(child)|
      ensures Under(segment, Leaves(Synchronize(child, targetChild)))[i]
              == SyncedLeaf(source, target, Under(segment, Leaves(child))[i])
    {
      var path := Leaves(child)[i].path;
      assert ([segment] + path)[1..] == path;
      assert Leaves(Synchronize(child, targetChild))[i] == SyncedLeaf(child, targetChild, Leaves(child)[i]);
    }
  }

  lemma {:induction false} SyncedAppend(source: Json, target: Option<Json>, a: seq<Leaf>, a': seq<Leaf>, b: seq<Leaf>,
        b': seq<Leaf>)
    requires LeavesSynced(source, target, a, a') && LeavesSynced(source, target, b, b')
    ensures LeavesSynced(source, target, a + b, a' + b')
  {
  }

  lemma {:induction false} SyncedMemberLeaves(done: Members, ms: Members, target: Option<Json>)
    requires WellFormedMembers(ms) && Names(done) !! Names(ms)
    ensures LeavesSynced(Object(Append(done, ms)), target, MemberLeaves(ms),
            MemberLeaves(SynchronizeMembers(ms, MembersOf(target))))
    decreases ms, 1
  {
    match ms
    case NoMembers =>
    case Member(name, value, more) =>
      var targetChild := GetMember(MembersOf(target), name);
      MemberSlot(done, name, value, more, value);
      SyncedLeaves(value, targetChild);
      ChildLeavesSynced(Object(Append(done, ms)), target, name, value, targetChild);
      MemberDone(done, name, value, more);
      SyncedMemberLeaves(Append(done, Member(name, value, NoMembers)), more, target);
      SyncedAppend(Object(Append(done, ms)), target,
                   Under(name, Leaves(value)), Under(name, Leaves(Synchronize(value, targetChild))),
                   MemberLeaves(more), MemberLeaves(SynchronizeMembers(more, MembersOf(target))));
  }

  function DropItems(items: Items, n: nat): Items {
    if n == 0 || items.NoItems? then items else DropItems(items.tail, n - 1)
  }

  lemma {:induction false} DropNext(items: Items, n: nat)
    ensures var d := DropItems(items, n);
            && GetItem(items, n) == (if d.Item? then Some(d.head) else None)
            && DropItems(items, n + 1) == (if d.Item? then d.tail else NoItems)
  {
    if n > 0 && items.Item? {
      DropNext(items.tail, n - 1);
    }
  }

  lemma {:induction false} SyncedItemLeaves(done: Items, items: Items, target: Option<Json>)
    requires WellFormedItems(items)
    ensures LeavesSynced(Array(AppendItems(done, items)), target, ItemLeaves(items, Length(done)),
                         ItemLeaves(SynchronizeItems(items, DropItems(ItemsOf(target), Length(done))), Length(done)))
    decreases items, 1
  {
    match items
    case NoItems =>
    case Item(head, tail) =>
      var index, rest := Length(done), DropItems(ItemsOf(target), Length(done));
      var targetChild := if rest.Item? then Some(rest.head) else None;
      DropNext(ItemsOf(target), index);
      DecimalRoundTrip(index);
      ElementSlot(done, head, tail, head);
      SyncedLeaves(head, targetChild);
      ChildLeavesSynced(Array(AppendItems(done, items)), target, Decimal(index), head, targetChild);
      ItemDone(done, head, tail);
      SyncedItemLeaves(AppendItems(done, Item(head, NoItems)), tail, target);
      SyncedAppend(Array(AppendItems(done, items)), target,
                   Under(Decimal(index), Leaves(head)), Under(Decimal(index), Leaves(Synchronize(head, targetChild))),
                   ItemLeaves(tail, index + 1),
                   ItemLeaves(SynchronizeItems(tail, DropItems(ItemsOf(target), index + 1)), index + 1));
  }

  // -------------------------------------------------------------------- laws

  /** A target that already has the source's shape is kept as it is. */
  lemma {:induction false} SameShapeIsKept(source: Json, target: Json)
    requires WellFormed(source) && Shape(target) == Shape(source)
    ensures Synchronize(source, Some(target)) == target
  {
    match source
    case Object(ms) => SameMembersAreKept(ms, NoMembers, target.members);
    case Array(items) => SameItemsAreKept(items, target.items);
    case _ =>
  }

  lemma {:induction false} SameMembersAreKept(ms: Members, done: Members, target: Members)
    requires WellFormedMembers(ms) && MemberShapes(target) == MemberShapes(ms) && Names(done) !! Names(ms)
    ensures SynchronizeMembers(ms, Append(done, target)) == target
  {
    match ms
    case NoMembers =>
    case Member(name, value, more) =>
      MemberSlot(done, name, target.value, target.more, target.value);
      SameShapeIsKept(value, target.value);
      MemberDone(done, name, target.value, target.more);
      SameMembersAreKept(more, Append(done, Member(name, target.value, NoMembers)), target.more);
  }

  lemma {:induction false} SameItemsAreKept(items: Items, target: Items)
    requires WellFormedItems(items) && ItemShapes(target) == ItemShapes(items)
    ensures SynchronizeItems(items, target) == target
  {
    match items
    case NoItems =>
    case Item(head, tail) =>
      SameShapeIsKept(head, target.head);
      SameItemsAreKept(tail, target.tail);
  }

  /** Synchronising a document with itself changes nothing, and a second pass changes nothing. */
  lemma {:induction false} SyncIsIdempotent(source: Json, target: Option<Json>)
    requires WellFormed(source)
    ensures Synchronize(source, Some(source)) == source
    ensures Synchronize(source, Some(Synchronize(source, target))) == Synchronize(source, target)
  {
    SameShapeIsKept(source, source);
    SyncKeepsShape(source, target);
    SameShapeIsKept(source, Synchronize(source, target));
  }

  // ------------------------------------------------------------- reported keys

  lemma {:induction false} UnderHas(segment: Text, leaves: seq<Leaf>, leaf: Leaf)
    ensures leaf in Under(segment, leaves) <==>
              leaf.path != [] && leaf.path[0] == segment && Leaf(leaf.path[1..], leaf.value) in leaves
  {
    UnderAt(segment, leaves);
    if leaf in Under(segment, leaves) {
      var i :| 0 <= i < |leaves| && Under(segment, leaves)[i] == leaf;
      assert leaf.path[1..] == leaves[i].path;
      assert leaves[i] == Leaf(leaf.path[1..], leaf.value);
    }
    if leaf.path != [] && leaf.path[0] == segment && Leaf(leaf.path[1..], leaf.value) in leaves {
      var i :| 0 <= i < |leaves| && leaves[i] == Leaf(leaf.path[1..], leaf.value);
      assert [segment] + leaf.path[1..] == leaf.path;
      assert Under(segment, leaves)[i] == leaf;
    }
  }

  /** A leaf below an object is a leaf of the member its path names. */
  lemma {:induction false} MemberLeaf(ms: Members, leaf: Leaf)
    requires WellFormedMembers(ms)
    ensures leaf in MemberLeaves(ms) <==>
              && leaf.path != [] && GetMember(ms, leaf.path[0]).Some?
              && Leaf(leaf.path[1..], leaf.value) in Leaves(GetMember(ms, leaf.path[0]).value)
  {
    match ms
    case NoMembers =>
    case Member(name, value, more) =>
      UnderHas(name, Leaves(value), leaf);
      MemberLeaf(more, leaf);
      if leaf.path != [] && leaf.path[0] == name {
        AbsentMember(more, name);
      }
  }

  lemma {:induction false} AbsentMember(ms: Members, name: Text)
    ensures GetMember(ms, name).Some? <==> name in Names(ms)
  {
    match ms
    case NoMembers =>
    case Member(_, _, more) => AbsentMember(more, name);
  }

  lemma {:induction false} ItemLeaf(items: Items, base: nat, index: nat, leaf: Leaf)
    requires leaf.path != [] && leaf.path[0] == Decimal(index)
    ensures leaf in ItemLeaves(items, base) <==>
              && index >= base && GetItem(items, index - base).Some?
              && Leaf(leaf.path[1..], leaf.value) in Leaves(GetItem(items, index - base).value)
    decreases items
  {
    match items
    case NoItems =>
    case Item(head, tail) =>
      UnderHas(Decimal(base), Leaves(head), leaf);
      ItemLeaf(tail, base + 1, index, leaf);
      if Decimal(index) == Decimal(base) {
        DecimalInjective(index, base);
      }
  }

  /** A leaf below an array has a decimal index for its first segment. */
  lemma {:induction false} ItemLeafIndex(items: Items, base: nat, leaf: Leaf) returns (index: nat)
    requires leaf in ItemLeaves(items, base)
    ensures leaf.path != [] && leaf.path[0] == Decimal(index)
    decreases items
  {
    match items
    case NoItems => assert false;
    case Item(head, tail) =>
      UnderHas(Decimal(base), Leaves(head), leaf);
      if leaf in Under(Decimal(base), Leaves(head)) {
        index := base;
      } else {
        index := ItemLeafIndex(tail, base + 1, leaf);
      }
  }

  /** A leaf of a container is a leaf of the child its path names. */
  lemma {:induction false} ChildLeaf(j: Json, leaf: Leaf, canonical: bool)
    requires IsContainer(j) && WellFormed(j)
    requires canonical && j.Array? ==> leaf.path != [] && exists index: nat :: leaf.path[0] == Decimal(index)
    ensures leaf in Leaves(j) ==>
              && leaf.path != [] && GetChild(j, leaf.path[0]).Some?
              && Leaf(leaf.path[1..], leaf.value) in Leaves(GetChild(j, leaf.path[0]).value)
              && (j.Array? ==> exists index: nat :: leaf.path[0] == Decimal(index))
    ensures canonical && leaf.path != [] && GetChild(j, leaf.path[0]).Some? ==>
              Leaf(leaf.path[1..], leaf.value) in Leaves(GetChild(j, leaf.path[0]).value) ==> leaf in Leaves(j)
  {
    match j
    case Object(ms) => MemberLeaf(ms, leaf);
    case Array(items) =>
      if leaf in Leaves(j) {
        var index := ItemLeafIndex(items, 0, leaf);
        DecimalRoundTrip(index);
        ItemLeaf(items, 0, index, leaf);
      }
      if canonical {
        var index: nat :| leaf.path[0] == Decimal(index);
        DecimalRoundTrip(index);
        ItemLeaf(items, 0, index, leaf);
      }
  }

  lemma {:induction false} ChildIsWellFormed(j: Json, segment: Text)
    requires WellFormed(j)
    ensures GetChild(j, segment).Some? ==> WellFormed(GetChild(j, segment).value)
  {
    match j
    case Object(ms) => MemberIsWellFormed(ms, segment);
    case Array(items) =>
      if ParseIndex(segment).Some? {
        ItemIsWellFormed(items, ParseIndex(segment).value);
      }
    case _ =>
  }

  lemma {:induction false} MemberIsWellFormed(ms: Members, name: Text)
    requires WellFormedMembers(ms)
    ensures GetMember(ms, name).Some? ==> WellFormed(GetMember(ms, name).value)
  {
    match ms
    case NoMembers =>
    case Member(_, _, more) => MemberIsWellFormed(more, name);
  }

  lemma {:induction false} ItemIsWellFormed(items: Items, index: nat)
    requires WellFormedItems(items)
    ensures GetItem(items, index).Some? ==> WellFormed(GetItem(items, index).value)
  {
    match items
    case NoItems =>
    case Item(_, more) => if index > 0 { ItemIsWellFormed(more, index - 1); }
  }

  predicate SameKind(a: Json, b: Json) {
    (a.Object? && b.Object?) || (a.Array? && b.Array?)
  }

  /** Along the path, source and target hold containers of the same kind. */
  predicate KindsAgree(source: Json, target: Json, path: Path)
    decreases |path|
  {
    path != [] ==>
      && SameKind(source, target)
      && var s, t := GetChild(source, path[0]), GetChild(target, path[0]);
         s.Some? && t.Some? && KindsAgree(s.value, t.value, path[1..])
  }

  /** A string taken from the target is the target's leaf at that path; and a leaf both documents
      have is taken from the target exactly when the containers on the way are of the same kinds. */
  lemma {:induction false} TakenFromTarget(source: Json, target: Json, path: Path, value: Text)
    requires WellFormed(source) && WellFormed(target) && Leaf(path, value) in Leaves(source)
    ensures var found := TargetString(source, Some(target), path);
            found.Some? ==> Leaf(path, found.value) in Leaves(target) && KindsAgree(source, target, path)
    ensures forall x :: Leaf(path, x) in Leaves(target) && KindsAgree(source, target, path) ==>
              TargetString(source, Some(target), path) == Some(x)
    decreases |path|
  {
    if path == [] {
      if IsContainer(source) {
        ContainerLeavesAreNonRoot(source);
      }
      if IsContainer(target) {
        ContainerLeavesAreNonRoot(target);
      }
    } else if SameKind(source, target) {
      var segment, rest := path[0], path[1..];
      ChildLeaf(source, Leaf(path, value), false);
      ChildIsWellFormed(source, segment);
      ChildIsWellFormed(target, segment);
      var s, t := GetChild(source, segment).value, GetChild(target, segment);
      if t.Some? {
        TakenFromTarget(s, t.value, rest, value);
        forall x ensures Leaf(path, x) in Leaves(target) <==> Leaf(rest, x) in Leaves(t.value) {
          ChildLeaf(target, Leaf(path, x), true);
        }
      } else {
        forall x ensures Leaf(path, x) !in Leaves(target) {
          ChildLeaf(target, Leaf(path, x), true);
        }
      }
    }
  }

  function LeafKeys(j: Json): set<Text> {
    set leaf | leaf in Leaves(j) :: PathToKey(leaf.path)
  }

  /** Every key reported missing carries the source's value in the synchronised document. */
  lemma {:induction false} MissingKeysCarrySource(source: Json, target: Json, i: nat)
    requires source.Object? && WellFormed(source) && WellFormed(target) && i < |Leaves(source)|
    requires PathToKey(Leaves(source)[i].path) !in LeafKeys(target)
    ensures LeavesSynced(source, Some(target), Leaves(source), Leaves(Synchronize(source, Some(target))))
    ensures Leaves(Synchronize(source, Some(target)))[i] == Leaves(source)[i]
  {
    var leaf := Leaves(source)[i];
    SyncedLeaves(source, Some(target));
    TakenFromTarget(source, target, leaf.path, leaf.value);
    assert Leaves(Synchronize(source, Some(target)))[i] == SyncedLeaf(source, Some(target), leaf);
  }

  method SynchronizeJsonKeys(target: Json, source: Json) returns (payload: Json, missing: set<Text>, extra: set<Text>)
    requires source.Object? && target.Object? && WellFormed(source) && WellFormed(target)
    ensures missing == LeafKeys(source) - LeafKeys(target) && extra == LeafKeys(target) - LeafKeys(source)
    ensures payload == Synchronize(source, Some(target))
    ensures LeafKeys(payload) == LeafKeys(source)
  {
    var sourceKeys, targetKeys := LeafKeys(source), LeafKeys(target);
    missing, extra := sourceKeys - targetKeys, targetKeys - sourceKeys;
    payload := Synchronize(source, Some(target));
    SyncedLeaves(source, Some(target));
    SameLeafKeys(source, payload, Some(target));
    if missing == {} && extra == {} && payload == target {
      return target, missing, extra;
    }
  }

  lemma {:induction false} SameLeafKeys(source: Json, payload: Json, target: Option<Json>)
    requires LeavesSynced(source, target, Leaves(source), Leaves(payload))
    ensures LeafKeys(payload) == LeafKeys(source)
  {
    var a, b := Leaves(source), Leaves(payload);
    assert forall i :: 0 <= i < |a| ==> b[i].path == a[i].path;
    forall key ensures key in LeafKeys(payload) <==> key in LeafKeys(source) {
      if leaf :| leaf in a && PathToKey(leaf.path) == key {
        var i :| 0 <= i < |a| && a[i] == leaf;
        assert b[i] in b;
      }
      if leaf :| leaf in b && PathToKey(leaf.path) == key {
        var i :| 0 <= i < |b| && b[i] == leaf;
        assert a[i] in a;
      }
    }
  }

  /** A target string reached through an object where the source has a list is passed over, and
      its key is reported neither missing nor extra. */
  lemma {:induction false} OtherKindIsPassedOver(name: Text, sourceText: Text, targetText: Text)
    ensures var source := Object(Member(name, Array(Item(String(sourceText), NoItems)), NoMembers));
            var target := Object(Member(name, Object(Member(Decimal(0), String(targetText), NoMembers)), NoMembers));
            && LeafKeys(source) == LeafKeys(target)
            && Synchronize(source, Some(target)) == source
  {
    var source := Object(Member(name, Array(Item(String(sourceText), NoItems)), NoMembers));
    var target := Object(Member(name, Object(Member(Decimal(0), String(targetText), NoMembers)), NoMembers));
    OneLeaf(Decimal(0), sourceText);
    OneLeaf(Decimal(0), targetText);
    OnlyMember(name, Array(Item(String(sourceText), NoItems)), Decimal(0), sourceText);
    OnlyMember(name, Object(Member(Decimal(0), String(targetText), NoMembers)), Decimal(0), targetText);
    var kept := Array(Item(String(sourceText), NoItems));
    assert Synchronize(String(sourceText), None) == String(sourceText);
    assert SynchronizeItems(Item(String(sourceText), NoItems), NoItems) == Item(String(sourceText), NoItems);
    assert Synchronize(kept, Some(target.members.value)) == kept;
    assert SynchronizeMembers(source.members, target.members) == Member(name, kept, NoMembers);
  }

  /** The leaf keys of an object whose one member has one leaf. */
  lemma {:induction false} OnlyMember(name: Text, child: Json, segment: Text, text: Text)
    requires Leaves(child) == [Leaf([segment], text)]
    ensures LeafKeys(Object(Member(name, child, NoMembers))) == {PathToKey([name] + [segment])}
  {
    var leaf := Leaf([name] + [segment], text);
    UnderAt(name, Leaves(child));
    assert Under(name, Leaves(child)) == [leaf];
    assert MemberLeaves(Member(name, child, NoMembers)) == [leaf];
    assert Leaves(Object(Member(name, child, NoMembers))) == [leaf];
    assert leaf in [leaf];
  }

  lemma {:induction false} OneLeaf(segment: Text, text: Text)
    ensures Leaves(Object(Member(segment, String(text), NoMembers))) == [Leaf([segment], text)]
    ensures segment == Decimal(0) ==> Leaves(Array(Item(String(text), NoItems))) == [Leaf([segment], text)]
  {
    UnderAt(segment, [Leaf([], text)]);
    assert [segment] + [] == [segment];
    assert Leaves(String(text)) == [Leaf([], text)];
    assert MemberLeaves(Member(segment, String(text), NoMembers)) == [Leaf([segment], text)];
    assert segment == Decimal(0) ==> ItemLeaves(Item(String(text), NoItems), 0) == [Leaf([segment], text)];
  }
}
