// Item stacks as the inventory code sees them. The parts of a stack that only
// matter through equality (metadata, block runtime ID, durability, NBT and
// placement lists) are one opaque value, `traits`.
module Items {
  import opened Widths

  const MAX_STACK_SIZE: UInt16 := 64
  const PLAYER_SLOTS := 46

  datatype Kind = Kind(networkId: Int32, traits: nat)

  datatype Item = Item(kind: Kind, count: UInt16, stackId: Int32)

  const NO_ITEM := Item(Kind(0, 0), 0, 0)

  // An item counts as absent when its count or its network ID is zero; such a
  // value may still carry a stack ID.
  predicate Empty(item: Item) {
    item.count == 0 || item.kind.networkId == 0
  }

  predicate SameItem(a: Item, b: Item) {
    !Empty(a) && !Empty(b) && a.kind == b.kind
  }

  function Subtract(item: Item, n: int): Item {
    if Empty(item) || n <= 0 then item
    else if n >= item.count then NO_ITEM
    else item.(count := item.count - n)
  }

  // What a place holds, without stack identity.
  datatype Content = Nothing | Stack(kind: Kind, count: int)

  function ContentOf(item: Item): Content {
    if Empty(item) then Nothing else Stack(item.kind, item.count)
  }

  // Equal, or both absent.
  predicate Alike(a: Item, b: Item) {
    a == b || (Empty(a) && Empty(b))
  }

  // The content left after removing `n` of the item.
  function Less(item: Item, n: int): Content {
    if item.count == n then Nothing else Stack(item.kind, item.count - n)
  }

  // The content after adding `n` of `kind` to what the item holds.
  function More(item: Item, kind: Kind, n: int): Content {
    Stack(kind, (if Empty(item) then 0 else item.count) + n)
  }

  // The allocator used for server items: starts over at 1 when the counter
  // leaves the positive range.
  function AllocateServerId(next: Int32): (r: (Int32, Int32)) {
    var id := if next <= 0 then 1 else next;
    (id, if id == MAX_INT32 then 1 else id + 1)
  }

  // The allocator used while clicks are simulated: never hands out 1.
  function AllocateClickId(next: Int32): (r: (Int32, Int32)) {
    var id := if next <= 1 then 2 else next;
    (id, if id == MAX_INT32 then 2 else id + 1)
  }
}
