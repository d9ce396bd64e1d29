/** Writing new values back path by path changes the string leaves and nothing else. */
module JsonLens {
  import opened Texts
  import opened Decimals
  import opened JsonPointer
  import opened JsonDocuments

  // ----------------------------------------------------------- laws of one child

  lemma {:induction false} MemberLaws(ms: Members, name: Text, value: Json, other: Json)
    ensures GetMember(SetMember(ms, name, value), name) == Some(value)
    ensures SetMember(SetMember(ms, name, value), name, other) == SetMember(ms, name, other)
    ensures GetMember(ms, name) == Some(value) ==> SetMember(ms, name, value) == ms
  {
    match ms
    case NoMembers =>
      assert GetMember(Member(name, value, NoMembers), name) == Some(value);
    case Member(_, _, more) => MemberLaws(more, name, value, other);
  }

  lemma {:induction false} ItemLaws(items: Items, index: nat, value: Json, other: Json)
    ensures GetItem(SetItem(items, index, value), index) == Some(value)
    ensures SetItem(SetItem(items, index, value), index, other) == SetItem(items, index, other)
    ensures GetItem(items, index) == Some(value) ==> SetItem(items, index, value) == items
    decreases index
  {
    if index > 0 {
      ItemLaws(if items.NoItems? then NoItems else items.tail, index - 1, value, other);
    }
  }

  lemma {:induction false} ChildLaws(j: Json, segment: Text, value: Json, other: Json)
    requires IsContainer(j)
    ensures var r := SetChild(j, segment, value);
            r.Some? ==>
              && GetChild(r.value, segment) == Some(value)
              && SetChild(r.value, segment, other) == SetChild(j, segment, other)
    ensures GetChild(j, segment) == Some(value) ==> SetChild(j, segment, value) == Some(j)
  {
    match j
    case Object(ms) => MemberLaws(ms, segment, value, other);
    case Array(items) =>
      if ParseIndex(segment).Some? {
        ItemLaws(items, ParseIndex(segment).value, value, other);
      }
  }

  /** What was written at a path is what is read there. */
  lemma {:induction false} PutGet(j: Json, path: Path, value: Text)
    requires IsContainer(j) && path != []
    ensures var r := SetPath(j, path, value); r.Some? ==> GetPath(r.value, path) == Some(String(value))
    decreases |path|
  {
    if |path| == 1 {
      ChildLaws(j, path[0], String(value), String(value));
    } else {
      var found := GetChild(j, path[0]);
      var child := if found.Some? && IsContainer(found.value) then found.value else Object(NoMembers);
      PutGet(child, path[1..], value);
      var written := SetPath(child, path[1..], value);
      if written.Some? {
        ChildLaws(j, path[0], written.value, written.value);
      }
    }
  }

  /** The last value written at a path is the one that stays. */
  lemma {:induction false} PutPut(j: Json, path: Path, value: Text, other: Text)
    requires IsContainer(j) && path != []
    ensures var r := SetPath(j, path, value); r.Some? ==> SetPath(r.value, path, other) == SetPath(j, path, other)
    decreases |path|
  {
    if |path| == 1 {
      ChildLaws(j, path[0], String(value), String(other));
    } else {
      var found := GetChild(j, path[0]);
      var child := if found.Some? && IsContainer(found.value) then found.value else Object(NoMembers);
      PutPut(child, path[1..], value, other);
      var written := SetPath(child, path[1..], value);
      if written.Some? {
        var again := SetPath(child, path[1..], other);
        ChildLaws(j, path[0], written.value, if again.Some? then again.value else written.value);
      }
    }
  }

  // ------------------------------------------------------------- many writes

  predicate NonRoot(leaves: seq<Leaf>) {
    forall i :: 0 <= i < |leaves| ==> leaves[i].path != []
  }

  /** Writes the leaves one after another. */
  function WriteAll(j: Json, leaves: seq<Leaf>): (r: Option<Json>)
    requires IsContainer(j) && NonRoot(leaves)
    ensures r.Some? ==> IsContainer(r.value)
    decreases |leaves|
  {
    if leaves == [] then Some(j)
    else
      var r := SetPath(j, leaves[0].path, leaves[0].value);
      if r.None? then None else WriteAll(r.value, leaves[1..])
  }

  function Relabel(leaves: seq<Leaf>, values: seq<Text>): (r: seq<Leaf>)
    requires |leaves| == |values|
    ensures |r| == |leaves|
    ensures forall i :: 0 <= i < |r| ==> r[i] == Leaf(leaves[i].path, values[i])
  {
    seq(|leaves|, i requires 0 <= i < |leaves| => Leaf(leaves[i].path, values[i]))
  }

  lemma {:induction false} WriteAllAppend(j: Json, a: seq<Leaf>, b: seq<Leaf>)
    requires IsContainer(j) && NonRoot(a) && NonRoot(b)
    ensures NonRoot(a + b)
    ensures var r := WriteAll(j, a);
            WriteAll(j, a + b) == if r.Some? then WriteAll(r.value, b) else None
    decreases |a|
  {
    if a == [] {
      assert a + b == b;
    } else {
      assert (a + b)[1..] == a[1..] + b;
      assert NonRoot(a[1..]);
      var r := SetPath(j, a[0].path, a[0].value);
      if r.Some? {
        WriteAllAppend(r.value, a[1..], b);
      }
    }
  }

  lemma {:induction false} UnderAt(segment: Text, leaves: seq<Leaf>)
    ensures forall i :: 0 <= i < |leaves| ==>
              Under(segment, leaves)[i] == Leaf([segment] + leaves[i].path, leaves[i].value)
    ensures NonRoot(Under(segment, leaves))
  {
    if leaves != [] {
      UnderAt(segment, leaves[1..]);
    }
  }

  /** Writes below one child happen in that child. */
  lemma {:induction false} WriteUnder(j: Json, segment: Text, child: Json, leaves: seq<Leaf>)
    requires IsContainer(j) && IsContainer(child) && GetChild(j, segment) == Some(child) && NonRoot(leaves)
    ensures NonRoot(Under(segment, leaves))
    ensures var r := WriteAll(child, leaves);
            WriteAll(j, Under(segment, leaves)) == if r.Some? then SetChild(j, segment, r.value) else None
    decreases |leaves|
  {
    UnderAt(segment, leaves);
    ChildLaws(j, segment, child, child);
    if leaves != [] {
      var path, value := leaves[0].path, leaves[0].value;
      assert ([segment] + path)[1..] == path;
      var written := SetPath(child, path, value);
      assert Under(segment, leaves)[1..] == Under(segment, leaves[1..]);
      if written.Some? {
        var next := SetChild(j, segment, written.value);
        ChildLaws(j, segment, written.value, written.value);
        ChildLaws(j, segment, child, written.value);
        assert NonRoot(leaves[1..]);
        WriteUnder(next.value, segment, written.value, leaves[1..]);
        var r := WriteAll(written.value, leaves[1..]);
        if r.Some? {
          ChildLaws(j, segment, written.value, r.value);
        }
      }
    }
  }

  // --------------------------------------------------------------- the lens law

  function Append(ms: Members, rest: Members): Members {
    match ms
    case NoMembers => rest
    case Member(name, value, more) => Member(name, value, Append(more, rest))
  }

  function AppendItems(items: Items, rest: Items): Items {
    match items
    case NoItems => rest
    case Item(head, tail) => Item(head, AppendItems(tail, rest))
  }

  lemma {:induction false} MemberSlot(done: Members, name: Text, value: Json, more: Members, replaced: Json)
    requires name !in Names(done)
    ensures GetChild(Object(Append(done, Member(name, value, more))), name) == Some(value)
    ensures SetChild(Object(Append(done, Member(name, value, more))), name, replaced)
            == Some(Object(Append(done, Member(name, replaced, more))))
  {
    match done
    case NoMembers =>
    case Member(_, _, rest) => MemberSlot(rest, name, value, more, replaced);
  }

  lemma {:induction false} MemberDone(done: Members, name: Text, value: Json, more: Members)
    ensures Append(done, Member(name, value, more)) == Append(Append(done, Member(name, value, NoMembers)), more)
    ensures Names(Append(done, Member(name, value, NoMembers))) == Names(done) + {name}
  {
    match done
    case NoMembers =>
    case Member(_, _, rest) => MemberDone(rest, name, value, more);
  }

  lemma {:induction false} ItemSlot(done: Items, value: Json, tail: Items, replaced: Json)
    ensures GetItem(AppendItems(done, Item(value, tail)), Length(done)) == Some(value)
    ensures SetItem(AppendItems(done, Item(value, tail)), Length(done), replaced)
            == AppendItems(done, Item(replaced, tail))
  {
    match done
    case NoItems =>
    case Item(_, rest) => ItemSlot(rest, value, tail, replaced);
  }

  lemma {:induction false} ItemDone(done: Items, value: Json, tail: Items)
    ensures AppendItems(done, Item(value, tail)) == AppendItems(AppendItems(done, Item(value, NoItems)), tail)
    ensures Length(AppendItems(done, Item(value, NoItems))) == Length(done) + 1
  {
    match done
    case NoItems =>
    case Item(_, rest) => ItemDone(rest, value, tail);
  }

  lemma {:induction false} ElementSlot(done: Items, value: Json, tail: Items, replaced: Json)
    ensures var j, segment := Array(AppendItems(done, Item(value, tail))), Decimal(Length(done));
            && GetChild(j, segment) == Some(value)
            && SetChild(j, segment, replaced) == Some(Array(AppendItems(done, Item(replaced, tail))))
  {
    DecimalRoundTrip(Length(done));
    ItemSlot(done, value, tail, replaced);
  }

  lemma {:induction false} ContainerLeavesAreNonRoot(j: Json)
    requires IsContainer(j)
    ensures NonRoot(Leaves(j))
  {
    match j
    case Object(ms) => MemberLeavesAreNonRoot(ms);
    case Array(items) => ItemLeavesAreNonRoot(items, 0);
  }

  lemma {:induction false} MemberLeavesAreNonRoot(ms: Members)
    ensures NonRoot(MemberLeaves(ms))
  {
    match ms
    case NoMembers =>
    case Member(name, value, more) =>
      UnderAt(name, Leaves(value));
      MemberLeavesAreNonRoot(more);
  }

  lemma {:induction false} ItemLeavesAreNonRoot(items: Items, index: nat)
    ensures NonRoot(ItemLeaves(items, index))
    decreases items
  {
    match items
    case NoItems =>
    case Item(head, tail) =>
      UnderAt(Decimal(index), Leaves(head));
      ItemLeavesAreNonRoot(tail, index + 1);
  }

  lemma {:induction false} RelabelUnder(segment: Text, leaves: seq<Leaf>, values: seq<Text>)
    requires |leaves| == |values|
    ensures Relabel(Under(segment, leaves), values) == Under(segment, Relabel(leaves, values))
  {
    UnderAt(segment, leaves);
    UnderAt(segment, Relabel(leaves, values));
  }

  lemma {:induction false} RelabelSplit(a: seq<Leaf>, b: seq<Leaf>, values: seq<Text>)
    requires |a| + |b| == |values|
    ensures Relabel(a + b, values) == Relabel(a, values[..|a|]) + Relabel(b, values[|a|..])
  {
  }

  /** Writing a child's leaves into the slot that holds it replaces the child by its relabelled form. */
  lemma {:induction false} WriteSlot(j: Json, segment: Text, child: Json, values: seq<Text>)
    requires IsContainer(j) && GetChild(j, segment) == Some(child) && SetChild(j, segment, child).Some?
    requires WellFormed(child) && |values| == |Leaves(child)|
    ensures NonRoot(Relabel(Under(segment, Leaves(child)), values))
    ensures WriteAll(j, Relabel(Under(segment, Leaves(child)), values))
            == SetChild(j, segment, WithLeaves(child, values))
    decreases child, 2
  {
    UnderAt(segment, Leaves(child));
    ChildLaws(j, segment, child, child);
    match child
    case Object(_) =>
      ContainerLens(child, values);
      RelabelUnder(segment, Leaves(child), values);
      ContainerLeavesAreNonRoot(child);
      WriteUnder(j, segment, child, Relabel(Leaves(child), values));
    case Array(_) =>
      ContainerLens(child, values);
      RelabelUnder(segment, Leaves(child), values);
      ContainerLeavesAreNonRoot(child);
      WriteUnder(j, segment, child, Relabel(Leaves(child), values));
    case String(text) =>
      var writes := Relabel(Under(segment, Leaves(child)), values);
      assert [segment] + [] == [segment];
      assert writes == [Leaf([segment], values[0])];
      assert writes[1..] == [];
    case Literal(_) =>
  }

  lemma {:induction false} MembersLens(done: Members, ms: Members, values: seq<Text>)
    requires WellFormedMembers(ms) && Names(done) !! Names(ms) && |values| == |MemberLeaves(ms)|
    ensures NonRoot(MemberLeaves(ms))
    ensures WriteAll(Object(Append(done, ms)), Relabel(MemberLeaves(ms), values))
            == Some(Object(Append(done, MembersWith(ms, values))))
    decreases ms, 1
  {
    MemberLeavesAreNonRoot(ms);
    match ms
    case NoMembers =>
    case Member(name, value, more) =>
      var n, j := |Leaves(value)|, Object(Append(done, ms));
      var first, rest := Under(name, Leaves(value)), MemberLeaves(more);
      MemberSlot(done, name, value, more, value);
      WriteSlot(j, name, value, values[..n]);
      RelabelSplit(first, rest, values);
      MemberLeavesAreNonRoot(more);
      WriteAllAppend(j, Relabel(first, values[..n]), Relabel(rest, values[n..]));
      var written := WithLeaves(value, values[..n]);
      MemberSlot(done, name, value, more, written);
      MemberDone(done, name, written, more);
      MembersLens(Append(done, Member(name, written, NoMembers)), more, values[n..]);
      MemberDone(done, name, written, MembersWith(more, values[n..]));
  }

  lemma {:induction false} ItemsLens(done: Items, items: Items, values: seq<Text>)
    requires WellFormedItems(items) && |values| == |ItemLeaves(items, Length(done))|
    ensures NonRoot(ItemLeaves(items, Length(done)))
    ensures WriteAll(Array(AppendItems(done, items)), Relabel(ItemLeaves(items, Length(done)), values))
            == Some(Array(AppendItems(done, ItemsWith(items, Length(done), values))))
    decreases items, 1
  {
    var index := Length(done);
    ItemLeavesAreNonRoot(items, index);
    match items
    case NoItems =>
    case Item(head, tail) =>
      var n, j := |Leaves(head)|, Array(AppendItems(done, items));
      var first, rest := Under(Decimal(index), Leaves(head)), ItemLeaves(tail, index + 1);
      ElementSlot(done, head, tail, head);
      WriteSlot(j, Decimal(index), head, values[..n]);
      RelabelSplit(first, rest, values);
      ItemLeavesAreNonRoot(tail, index + 1);
      WriteAllAppend(j, Relabel(first, values[..n]), Relabel(rest, values[n..]));
      var written := WithLeaves(head, values[..n]);
      ElementSlot(done, head, tail, written);
      ItemDone(done, written, tail);
      ItemsLens(AppendItems(done, Item(written, NoItems)), tail, values[n..]);
      ItemDone(done, written, ItemsWith(tail, index + 1, values[n..]));
  }

  /** Writing new values to all string leaves, one path at a time, equals replacing exactly those
      leaves in the structure. */
  lemma {:induction false} ContainerLens(j: Json, values: seq<Text>)
    requires IsContainer(j) && WellFormed(j) && |values| == |Leaves(j)|
    ensures NonRoot(Leaves(j))
    ensures WriteAll(j, Relabel(Leaves(j), values)) == Some(WithLeaves(j, values))
    decreases j, 0
  {
    ContainerLeavesAreNonRoot(j);
    match j
    case Object(ms) => MembersLens(NoMembers, ms, values);
    case Array(items) => ItemsLens(NoItems, items, values);
  }

  // -------------------------------------------- what replacing leaves keeps and changes

  lemma {:induction false} WithLeavesKeepsShape(j: Json, values: seq<Text>)
    requires |values| == |Leaves(j)|
    ensures Shape(WithLeaves(j, values)) == Shape(j)
    ensures Leaves(WithLeaves(j, values)) == Relabel(Leaves(j), values)
  {
    match j
    case Object(ms) => MembersWithKeepShape(ms, values);
    case Array(items) => ItemsWithKeepShape(items, 0, values);
    case String(_) =>
    case Literal(_) =>
  }

  lemma {:induction false} MembersWithKeepShape(ms: Members, values: seq<Text>)
    requires |values| == |MemberLeaves(ms)|
    ensures MemberShapes(MembersWith(ms, values)) == MemberShapes(ms)
    ensures MemberLeaves(MembersWith(ms, values)) == Relabel(MemberLeaves(ms), values)
  {
    match ms
    case NoMembers =>
    case Member(name, value, more) =>
      var n := |Leaves(value)|;
      WithLeavesKeepsShape(value, values[..n]);
      MembersWithKeepShape(more, values[n..]);
      RelabelUnder(name, Leaves(value), values[..n]);
      RelabelSplit(Under(name, Leaves(value)), MemberLeaves(more), values);
  }

  lemma {:induction false} ItemsWithKeepShape(items: Items, index: nat, values: seq<Text>)
    requires |values| == |ItemLeaves(items, index)|
    ensures ItemShapes(ItemsWith(items, index, values)) == ItemShapes(items)
    ensures ItemLeaves(ItemsWith(items, index, values), index) == Relabel(ItemLeaves(items, index), values)
    decreases items
  {
    match items
    case NoItems =>
    case Item(head, tail) =>
      var n := |Leaves(head)|;
      WithLeavesKeepsShape(head, values[..n]);
      ItemsWithKeepShape(tail, index + 1, values[n..]);
      RelabelUnder(Decimal(index), Leaves(head), values[..n]);
      RelabelSplit(Under(Decimal(index), Leaves(head)), ItemLeaves(tail, index + 1), values);
  }

  // ---------------------------------------------------------- keys tell leaves apart

  predicate DistinctPaths(leaves: seq<Leaf>) {
    forall i, j :: 0 <= i < j < |leaves| ==> leaves[i].path != leaves[j].path
  }

  lemma {:induction false} DistinctUnder(segment: Text, leaves: seq<Leaf>)
    requires DistinctPaths(leaves)
    ensures DistinctPaths(Under(segment, leaves))
  {
    UnderAt(segment, leaves);
    forall i, j | 0 <= i < j < |leaves| ensures Under(segment, leaves)[i].path != Under(segment, leaves)[j].path {
      assert ([segment] + leaves[i].path)[1..] == leaves[i].path;
      assert ([segment] + leaves[j].path)[1..] == leaves[j].path;
    }
  }

  lemma {:induction false} DistinctAppend(a: seq<Leaf>, b: seq<Leaf>)
    requires DistinctPaths(a) && DistinctPaths(b)
    requires forall i, j :: 0 <= i < |a| && 0 <= j < |b| ==> a[i].path != b[j].path
    ensures DistinctPaths(a + b)
  {
  }

  lemma {:induction false} LeafPathsAreDistinct(j: Json)
    requires WellFormed(j)
    ensures DistinctPaths(Leaves(j))
  {
    match j
    case Object(ms) => MemberPathsAreDistinct(ms);
    case Array(items) => ItemPathsAreDistinct(items, 0);
    case _ =>
  }

  lemma {:induction false} MemberPathsAreDistinct(ms: Members)
    requires WellFormedMembers(ms)
    ensures DistinctPaths(MemberLeaves(ms))
    ensures forall i :: 0 <= i < |MemberLeaves(ms)| ==> MemberLeaves(ms)[i].path != []
                                                        && MemberLeaves(ms)[i].path[0] in Names(ms)
  {
    match ms
    case NoMembers =>
    case Member(name, value, more) =>
      LeafPathsAreDistinct(value);
      MemberPathsAreDistinct(more);
      UnderAt(name, Leaves(value));
      DistinctUnder(name, Leaves(value));
      DistinctAppend(Under(name, Leaves(value)), MemberLeaves(more));
  }

  /** The leaf lies below an array element at `index` or later. */
  ghost predicate IndexedFrom(leaf: Leaf, index: nat) {
    leaf.path != [] && exists k: nat :: k >= index && leaf.path[0] == Decimal(k)
  }

  lemma {:induction false} ItemPathsAreDistinct(items: Items, index: nat)
    requires WellFormedItems(items)
    ensures DistinctPaths(ItemLeaves(items, index))
    ensures forall i :: 0 <= i < |ItemLeaves(items, index)| ==> IndexedFrom(ItemLeaves(items, index)[i], index)
    decreases items
  {
    match items
    case NoItems =>
    case Item(head, tail) =>
      LeafPathsAreDistinct(head);
      ItemPathsAreDistinct(tail, index + 1);
      var first, rest := Under(Decimal(index), Leaves(head)), ItemLeaves(tail, index + 1);
      UnderAt(Decimal(index), Leaves(head));
      DistinctUnder(Decimal(index), Leaves(head));
      forall i, j | 0 <= i < |first| && 0 <= j < |rest| ensures first[i].path != rest[j].path {
        var k: nat :| k >= index + 1 && rest[j].path[0] == Decimal(k);
        if Decimal(k) == Decimal(index) {
          DecimalInjective(k, index);
        }
      }
      DistinctAppend(first, rest);
      forall i | 0 <= i < |first + rest| ensures IndexedFrom((first + rest)[i], index) {
        assert i < |first| ==> (first + rest)[i].path[0] == Decimal(index);
        assert i >= |first| ==> IndexedFrom(rest[i - |first|], index + 1);
      }
  }

  /** No two string leaves of a document share a translation key. */
  lemma {:induction false} LeafKeysAreDistinct(j: Json, a: nat, b: nat)
    requires IsContainer(j) && WellFormed(j) && a < b < |Leaves(j)|
    ensures PathToKey(Leaves(j)[a].path) != PathToKey(Leaves(j)[b].path)
  {
    LeafPathsAreDistinct(j);
    ContainerLeavesAreNonRoot(j);
    if PathToKey(Leaves(j)[a].path) == PathToKey(Leaves(j)[b].path) {
      DistinctPathsDistinctKeys(Leaves(j)[a].path, Leaves(j)[b].path);
    }
  }

  // ----------------------------------------------------------------- the file steps

  /** A parsed entry; entries made for new keys carry no path. */
  datatype Entry = Entry(key: Text, value: Text, path: Path)

  function ParsedEntries(document: Json): (entries: seq<Entry>)
    ensures |entries| == |Leaves(document)|
  {
    var leaves := Leaves(document);
    seq(|leaves|, i requires 0 <= i < |leaves| => Entry(PathToKey(leaves[i].path), leaves[i].value, leaves[i].path))
  }

  function Revalued(entries: seq<Entry>, values: seq<Text>): (r: seq<Entry>)
    requires |entries| == |values|
    ensures |r| == |entries|
  {
    seq(|entries|, i requires 0 <= i < |entries| => entries[i].(value := values[i]))
  }

  /** The recorded path of an entry, or else the one its key spells. */
  function EntryPath(e: Entry): (path: Option<Path>)
    ensures path.Some? ==> path.value != []
  {
    if e.path != [] then Some(e.path) else KeyToPath(e.key)
  }

  function WriteEntries(document: Json, entries: seq<Entry>): Option<Json>
    requires IsContainer(document)
  {
    if entries == [] then Some(document)
    else
      var before := WriteEntries(document, entries[..|entries| - 1]);
      var e := entries[|entries| - 1];
      var path := EntryPath(e);
      if before.None? || path.None? || !IsContainer(before.value) then None
      else SetPath(before.value, path.value, e.value)
  }

  method ReassembleJsonFile(document: Json, entries: seq<Entry>) returns (payload: Option<Json>)
    requires IsContainer(document)
    ensures payload == WriteEntries(document, entries)
  {
    var current := document;
    for i := 0 to |entries|
      invariant IsContainer(current)
      invariant WriteEntries(document, entries[..i]) == Some(current)
    {
      assert entries[..i + 1][..i] == entries[..i];
      var path := EntryPath(entries[i]);
      var written := if path.Some? then SetPath(current, path.value, entries[i].value) else None;
      if written.None? {
        ErrorsPersist(document, entries, i + 1);
        return None;
      }
      current := written.value;
    }
    assert entries[..|entries|] == entries;
    return Some(current);
  }

  lemma {:induction false} ErrorsPersist(document: Json, entries: seq<Entry>, n: nat)
    requires IsContainer(document) && n <= |entries| && WriteEntries(document, entries[..n]).None?
    ensures WriteEntries(document, entries).None?
    decreases |entries|
  {
    if n == |entries| {
      assert entries[..n] == entries;
    } else {
      var init := entries[..|entries| - 1];
      assert init[..n] == entries[..n];
      ErrorsPersist(document, init, n);
    }
  }

  lemma {:induction false} EntriesAreWrites(document: Json, entries: seq<Entry>, leaves: seq<Leaf>)
    requires IsContainer(document) && NonRoot(leaves) && |entries| == |leaves|
    requires forall i :: 0 <= i < |entries| ==> entries[i].path == leaves[i].path && entries[i].value == leaves[i].value
    ensures WriteEntries(document, entries) == WriteAll(document, leaves)
  {
    if entries != [] {
      var n := |entries| - 1;
      assert NonRoot(leaves[..n]) && NonRoot([leaves[n]]);
      EntriesAreWrites(document, entries[..n], leaves[..n]);
      WriteAllAppend(document, leaves[..n], [leaves[n]]);
      assert leaves[..n] + [leaves[n]] == leaves;
    }
  }

  /** Parsing a document, giving every entry a new value and reassembling yields the document
      with exactly its string leaves replaced: same shape, same order, same other values. */
  lemma {:induction false} JsonFileLens(document: Json, values: seq<Text>)
    requires document.Object? && WellFormed(document) && |values| == |Leaves(document)|
    ensures WriteEntries(document, Revalued(ParsedEntries(document), values)) == Some(WithLeaves(document, values))
    ensures Shape(WithLeaves(document, values)) == Shape(document)
    ensures ParsedEntries(WithLeaves(document, values)) == Revalued(ParsedEntries(document), values)
  {
    ContainerLens(document, values);
    EntriesAreWrites(document, Revalued(ParsedEntries(document), values), Relabel(Leaves(document), values));
    WithLeavesKeepsShape(document, values);
  }
}
