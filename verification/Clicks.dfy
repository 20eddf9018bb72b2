// The meaning of one Java container click on a player inventory: the target
// language into which Bedrock stack requests are compiled.
module Clicks {
  import opened Widths
  import opened Items

  const ACTION_CLICK: UInt8 := 0
  const ACTION_TO_HOTBAR: UInt8 := 2
  const ACTION_DROP: UInt8 := 4
  const BUTTON_LEFT: UInt8 := 0
  const BUTTON_RIGHT: UInt8 := 1
  const OUTSIDE := -999

  datatype Click = Click(slot: int, actionType: UInt8, param: UInt8)

  // `nextId` is the session's stack ID counter.
  datatype Inventory = Inventory(items: seq<Item>, cursor: Item, nextId: Int32)

  datatype Place = Cursor | Slot(index: nat)

  predicate HasPlace(inv: Inventory, p: Place) {
    p.Slot? ==> p.index < |inv.items|
  }

  function At(inv: Inventory, p: Place): Item
    requires HasPlace(inv, p)
  {
    if p.Cursor? then inv.cursor else inv.items[p.index]
  }

  function LeftClick(inv: Inventory, slot: nat): Inventory
    requires slot < |inv.items|
  {
    var target := inv.items[slot];
    if Empty(inv.cursor) then
      inv.(cursor := target, items := inv.items[slot := NO_ITEM])
    else if Empty(target) then
      inv.(items := inv.items[slot := inv.cursor], cursor := NO_ITEM)
    else if !SameItem(inv.cursor, target) then
      inv.(items := inv.items[slot := inv.cursor], cursor := target)
    else
      var space := MAX_STACK_SIZE - Min(target.count, MAX_STACK_SIZE);
      var move := Min(space, inv.cursor.count);
      if move > 0 then
        inv.(items := inv.items[slot := target.(count := target.count + move)],
             cursor := Subtract(inv.cursor, move))
      else inv
  }

  function RightClick(inv: Inventory, slot: nat): Inventory
    requires slot < |inv.items|
  {
    var target := inv.items[slot];
    if Empty(inv.cursor) then
      if Empty(target) then inv
      else
        var take := target.count - target.count / 2;
        var (id, next) := AllocateClickId(inv.nextId);
        Inventory(inv.items[slot := Subtract(target, take)],
                  Item(target.kind, take, id), next)
    else if Empty(target) then
      var (id, next) := AllocateClickId(inv.nextId);
      Inventory(inv.items[slot := Item(inv.cursor.kind, 1, id)],
                Subtract(inv.cursor, 1), next)
    else if !SameItem(inv.cursor, target) then
      inv.(items := inv.items[slot := inv.cursor], cursor := target)
    else if target.count < MAX_STACK_SIZE then
      inv.(items := inv.items[slot := target.(count := target.count + 1)],
           cursor := Subtract(inv.cursor, 1))
    else inv
  }

  datatype ClickResult =
    | Refused
    | Applied(inv: Inventory, changed: map<int, Item>)

  // A click with its delta: the slots it reports as changed, with their new
  // contents.
  function ApplyClick(inv: Inventory, click: Click): ClickResult
    requires |inv.items| == PLAYER_SLOTS
  {
    if click.slot == OUTSIDE then
      if click.actionType != ACTION_CLICK && click.actionType != ACTION_DROP then Refused
      else if Empty(inv.cursor) then Applied(inv, map[])
      else if click.actionType == ACTION_DROP || click.param == BUTTON_RIGHT then
        Applied(inv.(cursor := Subtract(inv.cursor, 1)), map[])
      else Applied(inv.(cursor := NO_ITEM), map[])
    else if click.slot < 0 || click.slot >= |inv.items| then Refused
    else
      var slot := click.slot;
      if click.actionType == ACTION_CLICK then
        var after := if click.param == BUTTON_RIGHT then RightClick(inv, slot) else LeftClick(inv, slot);
        Applied(after, Delta(inv, after, slot, map[]))
      else if click.actionType == ACTION_TO_HOTBAR then
        if click.param > 8 then Refused
        else
          var to := 36 + click.param;
          var after := inv.(items := inv.items[slot := inv.items[to]][to := inv.items[slot]]);
          Applied(after, Delta(inv, after, slot, map[to := after.items[to]]))
      else if click.actionType == ACTION_DROP then
        var left := if click.param == BUTTON_RIGHT then NO_ITEM else Subtract(inv.items[slot], 1);
        var after := inv.(items := inv.items[slot := left]);
        Applied(after, Delta(inv, after, slot, map[]))
      else Refused
  }

  function Delta(before: Inventory, after: Inventory, slot: nat, changed: map<int, Item>): map<int, Item>
    requires slot < |before.items| && slot < |after.items|
  {
    if before.items[slot] != after.items[slot] then changed[slot := after.items[slot]] else changed
  }

  // The session state that a sent click updates; `stateId` is the Java
  // inventory revision, which saturates.
  datatype Session = Session(inv: Inventory, stateId: Int32)

  datatype SendResult = SendResult(session: Session, ok: bool, changed: map<int, Item>)

  // Whether the click packet can be written: every reported stack and the
  // cursor must have a Java form.
  predicate Encodable(encodes: Kind -> bool, changed: map<int, Item>, cursor: Item) {
    (forall slot | slot in changed :: Empty(changed[slot]) || encodes(changed[slot].kind))
    && (Empty(cursor) || encodes(cursor.kind))
  }

  // A click that cannot be encoded leaves the inventory as it was, but the
  // stack IDs it allocated stay used.
  function Send(encodes: Kind -> bool, s: Session, click: Click): SendResult
    requires |s.inv.items| == PLAYER_SLOTS
  {
    match ApplyClick(s.inv, click)
    case Refused => SendResult(s, false, map[])
    case Applied(inv, changed) =>
      if Encodable(encodes, changed, inv.cursor) then
        SendResult(Session(inv, if s.stateId < MAX_INT32 then s.stateId + 1 else s.stateId), true, changed)
      else
        SendResult(s.(inv := s.inv.(nextId := inv.nextId)), false, map[])
  }

  datatype RunResult = RunResult(session: Session, ok: bool, affected: set<int>)

  // A click program; it stops at the first click that fails, keeping the
  // effect of the clicks before it.
  function SendAll(encodes: Kind -> bool, s: Session, clicks: seq<Click>): RunResult
    requires |s.inv.items| == PLAYER_SLOTS
    decreases |clicks|
  {
    if clicks == [] then RunResult(s, true, {})
    else
      var first := Send(encodes, s, clicks[0]);
      if !first.ok then RunResult(first.session, false, {})
      else
        SendKeepsSlots(encodes, s, clicks[0]);
        var rest := SendAll(encodes, first.session, clicks[1..]);
        rest.(affected := first.changed.Keys + rest.affected)
  }

  lemma SendKeepsSlots(encodes: Kind -> bool, s: Session, click: Click)
    requires |s.inv.items| == PLAYER_SLOTS
    ensures |Send(encodes, s, click).session.inv.items| == PLAYER_SLOTS
  {}
}
