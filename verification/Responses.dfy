// The containers of an accepted response, in the order in which they are sent.
module Responses {
  import opened Widths
  import opened Items
  import opened Clicks
  import opened Requests
  import opened SessionLaws

  datatype ContainerInfo = ContainerInfo(container: Container, slots: seq<SlotInfo>)

  // The entries, whatever their order.
  function Entries(containers: seq<ContainerInfo>): set<(Container, SlotInfo)> {
    set i, j | 0 <= i < |containers| && 0 <= j < |containers[i].slots| ::
      (containers[i].container, containers[i].slots[j])
  }

  predicate AscendingSlots(slots: seq<SlotInfo>) {
    forall i, j | 0 <= i < j < |slots| :: slots[i].slot < slots[j].slot
  }

  predicate AscendingContainers(number: Container -> UInt8, containers: seq<ContainerInfo>) {
    && (forall i, j | 0 <= i < j < |containers| :: number(containers[i].container) < number(containers[j].container))
    && (forall i | 0 <= i < |containers| :: containers[i].slots != [] && AscendingSlots(containers[i].slots))
  }

  // Containers with entries by number, then the cursor; within each the slots
  // ascend.
  predicate InOrder(number: Container -> UInt8, containers: seq<ContainerInfo>) {
    && |containers| > 0
    && AscendingContainers(number, containers[..|containers| - 1])
    && containers[|containers| - 1].container == CursorContainer
    && |containers[|containers| - 1].slots| == 1
  }

  // ----- sorting -----------------------------------------------------------

  function Insert<T>(key: T -> int, x: T, s: seq<T>): (r: seq<T>)
    ensures |r| == |s| + 1
  {
    if s == [] then [x]
    else if key(x) <= key(s[0]) then [x] + s
    else [s[0]] + Insert(key, x, s[1..])
  }

  function SortedBy<T>(key: T -> int, s: seq<T>): (r: seq<T>)
    ensures |r| == |s|
  {
    if s == [] then [] else Insert(key, s[0], SortedBy(key, s[1..]))
  }

  predicate StrictlyAscends<T>(key: T -> int, s: seq<T>) {
    forall i, j | 0 <= i < j < |s| :: key(s[i]) < key(s[j])
  }

  predicate KeysDiffer<T>(key: T -> int, s: seq<T>) {
    forall i, j | 0 <= i < j < |s| :: key(s[i]) != key(s[j])
  }

  lemma {:induction false} InsertSorts<T(!new)>(key: T -> int, x: T, s: seq<T>)
    requires StrictlyAscends(key, s) && forall y | y in s :: key(y) != key(x)
    ensures StrictlyAscends(key, Insert(key, x, s))
    ensures forall y :: y in Insert(key, x, s) <==> y == x || y in s
  {
    if s != [] {
      assert s == [s[0]] + s[1..];
      assert s[0] in s;
      if key(x) <= key(s[0]) {
        PutFirst(key, x, s);
      } else {
        InsertSorts(key, x, s[1..]);
        InsertBehind(key, x, s, Insert(key, x, s[1..]));
      }
    }
  }

  lemma PutFirst<T>(key: T -> int, x: T, s: seq<T>)
    requires StrictlyAscends(key, s) && s != [] && key(x) < key(s[0])
    ensures StrictlyAscends(key, [x] + s)
  {}

  lemma InsertBehind<T(!new)>(key: T -> int, x: T, s: seq<T>, rest: seq<T>)
    requires s != [] && StrictlyAscends(key, s) && key(s[0]) < key(x)
    requires StrictlyAscends(key, rest) && forall y :: y in rest <==> y == x || y in s[1..]
    ensures StrictlyAscends(key, [s[0]] + rest)
    ensures forall y :: y in [s[0]] + rest <==> y == x || y in s
  {
    assert s == [s[0]] + s[1..];
    assert rest != [] by { assert x in rest; }
    assert rest[0] in rest;
    assert key(s[0]) < key(rest[0]);
    PutFirst(key, s[0], rest);
  }

  ghost predicate SameMembers<T(!new)>(a: seq<T>, b: seq<T>) {
    forall y :: y in a <==> y in b
  }

  // Sorting by different keys gives the same members with ascending keys.
  lemma {:induction false} SortedBySorts<T(!new)>(key: T -> int, s: seq<T>)
    requires KeysDiffer(key, s)
    ensures StrictlyAscends(key, SortedBy(key, s))
    ensures SameMembers(SortedBy(key, s), s)
  {
    if s != [] {
      SortedBySorts(key, s[1..]);
      InsertFirst(key, s, SortedBy(key, s[1..]));
    }
  }

  lemma InsertFirst<T(!new)>(key: T -> int, s: seq<T>, rest: seq<T>)
    requires s != [] && KeysDiffer(key, s)
    requires StrictlyAscends(key, rest) && SameMembers(rest, s[1..])
    ensures StrictlyAscends(key, Insert(key, s[0], rest))
    ensures SameMembers(Insert(key, s[0], rest), s)
  {
    assert s == [s[0]] + s[1..];
    forall y | y in rest ensures key(y) != key(s[0]) {
      assert y in s[1..];
    }
    InsertSorts(key, s[0], rest);
  }

  // ----- grouping entries by container ---------------------------------------

  type ByContainer = map<Container, seq<SlotInfo>>

  ghost function Recorded(byContainer: ByContainer): iset<(Container, SlotInfo)> {
    iset e: (Container, SlotInfo) | e.0 in byContainer && e.1 in byContainer[e.0]
  }

  // Every container has entries, for different slots.
  ghost predicate Grouped(byContainer: ByContainer) {
    forall c | c in byContainer :: byContainer[c] != [] && KeysDiffer(SlotOf, byContainer[c])
  }

  const SlotOf: SlotInfo -> int := (info: SlotInfo) => info.slot as int

  function AddEntry(byContainer: ByContainer, c: Container, info: SlotInfo): ByContainer {
    byContainer[c := (if c in byContainer then byContainer[c] else []) + [info]]
  }

  lemma AddEntryGroups(byContainer: ByContainer, c: Container, info: SlotInfo)
    requires Grouped(byContainer)
    requires forall other | (c, other) in Recorded(byContainer) :: other.slot != info.slot
    ensures Grouped(AddEntry(byContainer, c, info))
    ensures Recorded(AddEntry(byContainer, c, info)) == Recorded(byContainer) + iset{(c, info)}
  {
    var after := AddEntry(byContainer, c, info);
    if c in byContainer {
      forall i | 0 <= i < |byContainer[c]| ensures byContainer[c][i].slot != info.slot {
        assert (c, byContainer[c][i]) in Recorded(byContainer);
      }
    }
    forall e: (Container, SlotInfo) ensures e in Recorded(after) <==> e in Recorded(byContainer) || e == (c, info) {}
  }

  // ----- ordering ----------------------------------------------------------

  lemma Numbered(number: Container -> UInt8, keys: seq<Container>)
    requires Distinct(keys) && forall a, b | a in keys && b in keys && number(a) == number(b) :: a == b
    ensures KeysDiffer((c: Container) => number(c) as int, keys)
  {}

  method KeysInOrder(number: Container -> UInt8, byContainer: ByContainer) returns (keys: seq<Container>)
    requires forall a, b | a in byContainer && b in byContainer && number(a) == number(b) :: a == b
    ensures forall c :: c in keys <==> c in byContainer
    ensures forall i, j | 0 <= i < j < |keys| :: number(keys[i]) < number(keys[j])
  {
    keys := [];
    var todo := byContainer.Keys;
    while todo != {}
      invariant todo <= byContainer.Keys && Distinct(keys)
      invariant forall c :: c in keys <==> c in byContainer && c !in todo
      decreases |todo|
    {
      ghost var member := SomeMember(todo);
      var c :| c in todo;
      todo := todo - {c};
      keys := keys + [c];
    }
    Numbered(number, keys);
    SortedBySorts((c: Container) => number(c) as int, keys);
    keys := SortedBy((c: Container) => number(c) as int, keys);
  }

  // The containers by number and their entries by slot.
  method OrderContainers(number: Container -> UInt8, byContainer: ByContainer) returns (containers: seq<ContainerInfo>)
    requires forall a, b | a in byContainer && b in byContainer && number(a) == number(b) :: a == b
    requires Grouped(byContainer)
    ensures AscendingContainers(number, containers)
    ensures forall e :: e in Entries(containers) <==> e in Recorded(byContainer)
  {
    var keys := KeysInOrder(number, byContainer);
    containers := [];
    for i := 0 to |keys|
      invariant |containers| == i
      invariant forall k | 0 <= k < i ::
                  containers[k] == ContainerInfo(keys[k], SortedBy(SlotOf, byContainer[keys[k]]))
    {
      assert keys[i] in keys;
      containers := containers + [ContainerInfo(keys[i], SortedBy(SlotOf, byContainer[keys[i]]))];
    }
    AllOrdered(number, byContainer, keys, containers);
  }

  lemma AllOrdered(number: Container -> UInt8, byContainer: ByContainer, keys: seq<Container>,
                   containers: seq<ContainerInfo>)
    requires Grouped(byContainer) && forall c :: c in keys <==> c in byContainer
    requires forall i, j | 0 <= i < j < |keys| :: number(keys[i]) < number(keys[j])
    requires |containers| == |keys|
    requires forall k | 0 <= k < |keys| :: keys[k] in byContainer
               && containers[k] == ContainerInfo(keys[k], SortedBy(SlotOf, byContainer[keys[k]]))
    ensures AscendingContainers(number, containers)
    ensures forall e :: e in Entries(containers) <==> e in Recorded(byContainer)
  {
    forall k | 0 <= k < |keys|
      ensures containers[k].slots != [] && AscendingSlots(containers[k].slots)
      ensures forall info :: info in containers[k].slots <==> info in byContainer[keys[k]]
    {
      SortedBySorts(SlotOf, byContainer[keys[k]]);
    }
    forall e: (Container, SlotInfo) ensures e in Entries(containers) <==> e in Recorded(byContainer) {
      if e in Recorded(byContainer) {
        var k :| 0 <= k < |keys| && keys[k] == e.0;
        assert e.1 in containers[k].slots;
        var j :| 0 <= j < |containers[k].slots| && containers[k].slots[j] == e.1;
        assert containers[k].container == e.0;
      }
    }
  }

  // ----- the response --------------------------------------------------------

  // The containers under which player slots are reported have numbers of their
  // own.
  predicate NumbersDiffer(number: Container -> UInt8) {
    var named := {MainInventory, HotBar, Armor, Offhand, CraftingInput, CreatedOutput};
    forall a, b | a in named && b in named && number(a) == number(b) :: a == b
  }

  // What the slots visited so far have recorded.
  ghost predicate Covers(byContainer: ByContainer, inv: Inventory, slots: set<int>)
    requires |inv.items| == PLAYER_SLOTS
  {
    forall e :: e in Recorded(byContainer)
                <==> exists j ::
                       j in slots && JavaPlayerSlot(j).Some? && 0 <= j < PLAYER_SLOTS && e == SlotEntry(inv, j)
  }

  lemma NothingRecorded(inv: Inventory)
    requires |inv.items| == PLAYER_SLOTS
    ensures Grouped(map[]) && Covers(map[], inv, {})
  {}

  lemma CoverOneMore(byContainer: ByContainer, inv: Inventory, slots: set<int>, j: int)
    requires |inv.items| == PLAYER_SLOTS && Grouped(byContainer) && Covers(byContainer, inv, slots)
    requires j !in slots && 0 <= j < PLAYER_SLOTS && JavaPlayerSlot(j).Some?
    ensures var entry := SlotEntry(inv, j);
            var after := AddEntry(byContainer, entry.0, entry.1);
            Grouped(after) && Covers(after, inv, slots + {j})
  {
    hide JavaPlayerSlot, Grouped, AddEntry, Recorded;
    var entry := SlotEntry(inv, j);
    forall other | (entry.0, other) in Recorded(byContainer) ensures other.slot != entry.1.slot {
      var k :| k in slots && JavaPlayerSlot(k).Some? && 0 <= k < PLAYER_SLOTS && (entry.0, other) == SlotEntry(inv, k);
      DifferentSlots(j, k);
    }
    AddEntryGroups(byContainer, entry.0, entry.1);
  }

  lemma DifferentSlots(j: int, k: int)
    requires 0 <= j < PLAYER_SLOTS && 0 <= k < PLAYER_SLOTS && j != k
    ensures JavaPlayerSlot(j).Some? && JavaPlayerSlot(k).Some?
    ensures JavaPlayerSlot(j).value.0 == JavaPlayerSlot(k).value.0 ==>
              JavaPlayerSlot(j).value.1 != JavaPlayerSlot(k).value.1
  {}

  lemma CoverSkipped(byContainer: ByContainer, inv: Inventory, slots: set<int>, j: int)
    requires |inv.items| == PLAYER_SLOTS && Covers(byContainer, inv, slots) && JavaPlayerSlot(j).None?
    ensures Covers(byContainer, inv, slots + {j})
  {
    hide JavaPlayerSlot, Recorded;
  }

  // Nothing but player containers is recorded.
  lemma OnlyPlayerContainers(number: Container -> UInt8, byContainer: ByContainer, inv: Inventory, slots: set<int>)
    requires |inv.items| == PLAYER_SLOTS && Grouped(byContainer) && Covers(byContainer, inv, slots)
    requires NumbersDiffer(number)
    ensures forall a, b | a in byContainer && b in byContainer && number(a) == number(b) :: a == b
  {
    forall c | c in byContainer ensures c in {MainInventory, HotBar, Armor, Offhand, CraftingInput, CreatedOutput} {
      assert (c, byContainer[c][0]) in Recorded(byContainer);
    }
  }

  // The response of the model, in order: the same entries, with the cursor last.
  ghost predicate Renders(number: Container -> UInt8, containers: seq<ContainerInfo>, response: Response) {
    response.Accepted? && InOrder(number, containers) && Entries(containers) == response.slots
  }

  lemma RendersAccepted(number: Container -> UInt8, named: seq<ContainerInfo>, byContainer: ByContainer,
                        inv: Inventory, affected: set<int>)
    requires |inv.items| == PLAYER_SLOTS && Covers(byContainer, inv, affected)
    requires AscendingContainers(number, named)
    requires forall e :: e in Entries(named) <==> e in Recorded(byContainer)
    ensures Renders(number, named + [ContainerInfo(CursorContainer, [MakeSlotInfo(0, inv.cursor)])],
                    AcceptedResponse(inv, affected))
  {
    hide JavaPlayerSlot, AscendingContainers, Recorded;
    var cursor := ContainerInfo(CursorContainer, [MakeSlotInfo(0, inv.cursor)]);
    var all := named + [cursor];
    assert all[..|all| - 1] == named;
    EntriesAppend(named, cursor);
    EntriesOfCursor(inv);
    assert Entries(all) == AcceptedResponse(inv, affected).slots;
  }

  lemma EntriesAppend(named: seq<ContainerInfo>, last: ContainerInfo)
    ensures Entries(named + [last]) == Entries(named) + Entries([last])
  {
    var all := named + [last];
    forall e ensures e in Entries(all) <==> e in Entries(named) || e in Entries([last]) {
      if e in Entries(named) {
        var i, j :| 0 <= i < |named| && 0 <= j < |named[i].slots| && e == (named[i].container, named[i].slots[j]);
        assert all[i] == named[i];
      }
      if e in Entries([last]) {
        var j :| 0 <= j < |last.slots| && e == (last.container, last.slots[j]);
        assert all[|named|].slots[j] == last.slots[j];
      }
    }
  }

  lemma EntriesOfCursor(inv: Inventory)
    ensures Entries([ContainerInfo(CursorContainer, [MakeSlotInfo(0, inv.cursor)])])
            == {(CursorContainer, MakeSlotInfo(0, inv.cursor))}
  {
    var s := [ContainerInfo(CursorContainer, [MakeSlotInfo(0, inv.cursor)])];
    assert (s[0].container, s[0].slots[0]) in Entries(s);
  }
}
