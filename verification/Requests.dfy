// Compilation of Bedrock stack requests into Java click programs, for a player
// with no open window.
module Requests {
  import opened Widths
  import opened Items
  import opened Clicks
  import opened ClickLaws

  // The container identifiers of the Bedrock protocol that the player
  // inventory uses.
  datatype Container =
    | CursorContainer
    | HotBar
    | MainInventory
    | CombinedHotBarAndInventory
    | Armor
    | Offhand
    | CraftingInput
    | CreatedOutput
    | OtherContainer(id: UInt8)

  datatype SlotRef = SlotRef(container: Container, dynamicContainer: bool, slot: UInt8, stackId: Int32)

  function BedrockStackSlot(ref: SlotRef): Option<Place> {
    if ref.dynamicContainer then None
    else match ref.container
      case CursorContainer => if ref.slot == 0 then Some(Cursor) else None
      case HotBar => if ref.slot <= 8 then Some(Slot(36 + ref.slot)) else None
      case MainInventory => if 9 <= ref.slot <= 35 then Some(Slot(ref.slot)) else None
      case CombinedHotBarAndInventory =>
        if ref.slot <= 8 then Some(Slot(36 + ref.slot))
        else if ref.slot <= 35 then Some(Slot(ref.slot))
        else None
      case Armor => if ref.slot <= 3 then Some(Slot(5 + ref.slot)) else None
      case Offhand => if ref.slot <= 1 then Some(Slot(45)) else None
      case CraftingInput => if 28 <= ref.slot <= 31 then Some(Slot(ref.slot - 27)) else None
      case CreatedOutput => if ref.slot == 0 || ref.slot == 50 then Some(Slot(0)) else None
      case OtherContainer(_) => None
  }

  // The Bedrock container and slot under which a Java player slot is reported.
  function JavaPlayerSlot(slot: int): Option<(Container, UInt8)> {
    if 9 <= slot <= 35 then Some((MainInventory, slot))
    else if 36 <= slot <= 44 then Some((HotBar, slot - 36))
    else if 5 <= slot <= 8 then Some((Armor, slot - 5))
    else if slot == 45 then Some((Offhand, 0))
    else if 1 <= slot <= 4 then Some((CraftingInput, slot + 27))
    else if slot == 0 then Some((CreatedOutput, 0))
    else None
  }

  // Negative IDs and 1 are not checked.
  predicate ReferenceValid(inv: Inventory, ref: SlotRef, p: Place)
    requires HasPlace(inv, p)
  {
    ref.stackId < 0 || ref.stackId == 1 || ref.stackId == At(inv, p).stackId
  }

  lemma ResolvedPlaceExists(inv: Inventory, ref: SlotRef)
    requires |inv.items| == PLAYER_SLOTS
    ensures var r := BedrockStackSlot(ref); r.Some? ==> HasPlace(inv, r.value)
  {}

  // ----- transfer ----------------------------------------------------------

  function Left(slot: int): Click { Click(slot, ACTION_CLICK, BUTTON_LEFT) }

  function Right(slot: int): Click { Click(slot, ACTION_CLICK, BUTTON_RIGHT) }

  function Repeat(click: Click, n: nat): seq<Click> {
    seq(n, _ => click)
  }

  // The half that a right click takes, rounded up.
  function CeilHalf(n: int): int { n - n / 2 }

  // The click program of a transfer between two places.
  function TransferProgram(inv: Inventory, from: Place, to: Place, count: UInt8): Option<seq<Click>>
    requires HasPlace(inv, from) && HasPlace(inv, to)
  {
    var source := At(inv, from);
    if Empty(source) || source.count < count then None
    else if from.Slot? && to.Slot? && !Empty(inv.cursor) then None
    else if to.Cursor? && from.Slot? then
      if Empty(inv.cursor) then
        if count == source.count then Some([Left(from.index)])
        else if count == CeilHalf(source.count) then Some([Right(from.index)])
        else Some([Left(from.index)] + Repeat(Right(from.index), source.count - count))
      else if !SameItem(inv.cursor, source) || count != source.count then None
      else Some([Left(from.index)])
    else if to.Cursor? then None
    else if from.Cursor? then
      if count == source.count then Some([Left(to.index)])
      else Some(Repeat(Right(to.index), count))
    else
      var target := inv.items[to.index];
      if from == to || (!Empty(target) && !SameItem(source, target)) then None
      else if count == source.count then Some([Left(from.index), Left(to.index)])
      else if count == CeilHalf(source.count) then Some([Right(from.index), Left(to.index)])
      else Some([Left(from.index)] + Repeat(Right(to.index), count) + [Left(from.index)])
  }

  function CompileTransfer(inv: Inventory, source: SlotRef, destination: SlotRef, count: UInt8): Option<seq<Click>>
    requires |inv.items| == PLAYER_SLOTS
  {
    var from, to := BedrockStackSlot(source), BedrockStackSlot(destination);
    if count == 0 || from.None? || to.None? || (from.value.Cursor? && to.value.Cursor?) then None
    else if !ReferenceValid(inv, source, from.value) || !ReferenceValid(inv, destination, to.value) then None
    else TransferProgram(inv, from.value, to.value, count)
  }

  // ----- swap and drop -----------------------------------------------------

  function CompileSwap(inv: Inventory, source: SlotRef, destination: SlotRef): Option<seq<Click>>
    requires |inv.items| == PLAYER_SLOTS
  {
    var from, to := BedrockStackSlot(source), BedrockStackSlot(destination);
    if from.None? || to.None? || (from.value.Cursor? && to.value.Cursor?) then None
    else if !ReferenceValid(inv, source, from.value) || !ReferenceValid(inv, destination, to.value) then None
    else if from.value.Slot? && to.value.Slot? then
      if from.value == to.value then None
      else if destination.container.HotBar? then
        Some([Click(from.value.index, ACTION_TO_HOTBAR, destination.slot)])
      else Some([Left(from.value.index), Left(to.value.index), Left(from.value.index)])
    else if from.value.Cursor? then Some([Left(to.value.index)])
    else Some([Left(from.value.index)])
  }

  function DropProgram(inv: Inventory, from: Place, count: UInt8): Option<seq<Click>>
    requires HasPlace(inv, from)
  {
    var item := At(inv, from);
    if Empty(item) || item.count < count then None
    else if from.Cursor? then
      if count == item.count then Some([Click(OUTSIDE, ACTION_DROP, BUTTON_LEFT)])
      else Some(Repeat(Click(OUTSIDE, ACTION_DROP, BUTTON_RIGHT), count))
    else if count == item.count && item.count > 1 then
      Some([Click(from.index, ACTION_DROP, BUTTON_RIGHT)])
    else Some(Repeat(Click(from.index, ACTION_DROP, BUTTON_LEFT), count))
  }

  function CompileDrop(inv: Inventory, source: SlotRef, count: UInt8): Option<seq<Click>>
    requires |inv.items| == PLAYER_SLOTS
  {
    var from := BedrockStackSlot(source);
    if count == 0 || from.None? || !ReferenceValid(inv, source, from.value) then None
    else DropProgram(inv, from.value, count)
  }

  // ----- whole requests ----------------------------------------------------

  datatype Action =
    | Take(source: SlotRef, destination: SlotRef, count: UInt8)
    | PlaceAction(source: SlotRef, destination: SlotRef, count: UInt8)
    | PlaceInContainer(source: SlotRef, destination: SlotRef, count: UInt8)
    | TakeOutContainer(source: SlotRef, destination: SlotRef, count: UInt8)
    | Swap(source: SlotRef, destination: SlotRef)
    | Drop(source: SlotRef, count: UInt8)
    | MineBlock(hotbarSlot: Int32, stackId: Int32)
    | Unsupported

  function Compile(inv: Inventory, action: Action): Option<seq<Click>>
    requires |inv.items| == PLAYER_SLOTS
  {
    match action
    case Take(source, destination, count) => CompileTransfer(inv, source, destination, count)
    case PlaceAction(source, destination, count) => CompileTransfer(inv, source, destination, count)
    case PlaceInContainer(source, destination, count) => CompileTransfer(inv, source, destination, count)
    case TakeOutContainer(source, destination, count) => CompileTransfer(inv, source, destination, count)
    case Swap(source, destination) => CompileSwap(inv, source, destination)
    case Drop(source, count) => CompileDrop(inv, source, count)
    case MineBlock(hotbarSlot, stackId) =>
      if hotbarSlot < 0 || hotbarSlot > 8 then None
      else if ReferenceValid(inv, SlotRef(HotBar, false, hotbarSlot, stackId), Slot(36 + hotbarSlot)) then Some([])
      else None
    case Unsupported => None
  }

  function Execute(encodes: Kind -> bool, s: Session, action: Action): RunResult
    requires |s.inv.items| == PLAYER_SLOTS
  {
    match Compile(s.inv, action)
    case None => RunResult(s, false, {})
    case Some(clicks) => SendAll(encodes, s, clicks)
  }

  // The actions of a request in order, up to the first that fails. Earlier
  // actions are not undone.
  function ExecuteAll(encodes: Kind -> bool, s: Session, actions: seq<Action>): RunResult
    requires |s.inv.items| == PLAYER_SLOTS
    decreases |actions|
  {
    if actions == [] then RunResult(s, true, {})
    else
      var first := Execute(encodes, s, actions[0]);
      if !first.ok then first
      else
        ExecuteKeepsSlots(encodes, s, actions[0]);
        var rest := ExecuteAll(encodes, first.session, actions[1..]);
        rest.(affected := first.affected + rest.affected)
  }

  lemma ExecuteKeepsSlots(encodes: Kind -> bool, s: Session, action: Action)
    requires |s.inv.items| == PLAYER_SLOTS
    ensures |Execute(encodes, s, action).session.inv.items| == PLAYER_SLOTS
  {
    var program := Compile(s.inv, action);
    if program.Some? { RunReportsChanges(encodes, s, program.value); }
  }
}
