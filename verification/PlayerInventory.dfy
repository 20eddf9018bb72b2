// The inventory part of a translated session, updated in place, and the
// simulation that a click runs on before it is sent.
module PlayerInventory {
  import opened Widths
  import opened Items
  import opened Clicks
  import opened Requests
  import opened SessionLaws
  import opened Responses

  class AffectedSlots {
    var slots: set<int>

    constructor ()
      ensures slots == {}
    {
      slots := {};
    }
  }

  class InventorySimulation {
    const items: array<Item>
    var cursor: Item

    constructor (items: array<Item>, cursor: Item)
      ensures this.items == items && this.cursor == cursor
    {
      this.items := items;
      this.cursor := cursor;
    }
  }

  class SessionInventory {
    const encodes: Kind -> bool
    const number: Container -> UInt8
    const playerItems: array<Item>
    var cursorItem: Item
    var inventoryStateID: Int32
    var nextStackID: Int32

    ghost predicate Valid()
      reads this
    {
      playerItems.Length == PLAYER_SLOTS && NumbersDiffer(number)
    }

    ghost function State(): (s: Session)
      reads this, playerItems
    {
      Session(Inventory(playerItems[..], cursorItem, nextStackID), inventoryStateID)
    }

    ghost function View(sim: InventorySimulation): (inv: Inventory)
      reads this, sim, sim.items
    {
      Inventory(sim.items[..], sim.cursor, nextStackID)
    }

    constructor (encodes: Kind -> bool, number: Container -> UInt8)
      requires NumbersDiffer(number)
      ensures Valid() && fresh(playerItems) && this.encodes == encodes && this.number == number
      ensures State() == NewSession()
    {
      this.encodes := encodes;
      this.number := number;
      playerItems := new Item[PLAYER_SLOTS](_ => NO_ITEM);
      cursorItem := NO_ITEM;
      inventoryStateID := 0;
      nextStackID := 1;
    }

    // ----- stack IDs -------------------------------------------------------

    method NextStackNetworkID() returns (id: Int32)
      modifies this`nextStackID
      ensures (id, nextStackID) == AllocateServerId(old(nextStackID))
    {
      id := nextStackID;
      if id <= 0 { id := 1; }
      nextStackID := if id == MAX_INT32 then -0x8000_0000 else id + 1;
      if nextStackID <= 0 { nextStackID := 1; }
    }

    method NextStackNetworkIDLocked() returns (id: Int32)
      modifies this`nextStackID
      ensures (id, nextStackID) == AllocateClickId(old(nextStackID))
    {
      id := nextStackID;
      if id <= 1 { id := 2; }
      nextStackID := if id == MAX_INT32 then -0x8000_0000 else id + 1;
      if nextStackID <= 0 { nextStackID := 2; }
    }

    // ----- one click -------------------------------------------------------

    method ApplyLeftClick(sim: InventorySimulation, slot: nat)
      requires slot < sim.items.Length && sim.items != playerItems
      modifies sim, sim.items
      ensures View(sim) == LeftClick(old(View(sim)), slot)
    {
      ghost var before := sim.items[..];
      var target := sim.items[slot];
      if Empty(sim.cursor) {
        sim.cursor := target;
        sim.items[slot] := NO_ITEM;
        return;
      }
      if Empty(target) {
        sim.items[slot] := sim.cursor;
        sim.cursor := NO_ITEM;
        return;
      }
      if !SameItem(sim.cursor, target) {
        sim.items[slot], sim.cursor := sim.cursor, target;
        return;
      }
      var space := MAX_STACK_SIZE - Min(target.count, MAX_STACK_SIZE);
      var move := Min(space, sim.cursor.count);
      if move > 0 {
        target := target.(count := target.count + move);
        sim.cursor := Subtract(sim.cursor, move);
        sim.items[slot] := target;
      }
    }

    method ApplyRightClick(sim: InventorySimulation, slot: nat)
      requires slot < sim.items.Length && sim.items != playerItems
      modifies this`nextStackID, sim, sim.items
      ensures View(sim) == RightClick(old(View(sim)), slot)
    {
      var target := sim.items[slot];
      if Empty(sim.cursor) {
        if Empty(target) { return; }
        var take := target.count - target.count / 2;
        var id := NextStackNetworkIDLocked();
        sim.cursor := target.(count := take, stackId := id);
        sim.items[slot] := Subtract(target, take);
        return;
      }
      if Empty(target) {
        var id := NextStackNetworkIDLocked();
        sim.items[slot] := sim.cursor.(count := 1, stackId := id);
        sim.cursor := Subtract(sim.cursor, 1);
        return;
      }
      if !SameItem(sim.cursor, target) {
        sim.items[slot], sim.cursor := sim.cursor, target;
        return;
      }
      if target.count < MAX_STACK_SIZE {
        target := target.(count := target.count + 1);
        sim.items[slot] := target;
        sim.cursor := Subtract(sim.cursor, 1);
      }
    }

    method ApplyInventoryClick(sim: InventorySimulation, click: Click) returns (ok: bool, changed: map<int, Item>)
      requires sim.items.Length == PLAYER_SLOTS && sim.items != playerItems
      modifies this`nextStackID, sim, sim.items
      ensures ok ==> ApplyClick(old(View(sim)), click) == Applied(View(sim), changed)
      ensures !ok ==> ApplyClick(old(View(sim)), click) == Refused && nextStackID == old(nextStackID)
    {
      changed := map[];
      if click.slot == OUTSIDE {
        if click.actionType != ACTION_CLICK && click.actionType != ACTION_DROP {
          return false, changed;
        }
        if Empty(sim.cursor) {
          return true, changed;
        }
        if click.actionType == ACTION_DROP || click.param == BUTTON_RIGHT {
          sim.cursor := Subtract(sim.cursor, 1);
        } else {
          sim.cursor := NO_ITEM;
        }
        return true, changed;
      }
      if click.slot < 0 || click.slot >= sim.items.Length {
        return false, changed;
      }
      var slot := click.slot;
      var before := sim.items[slot];
      if click.actionType == ACTION_CLICK {
        if click.param == BUTTON_RIGHT {
          ApplyRightClick(sim, slot);
        } else {
          ApplyLeftClick(sim, slot);
        }
      } else if click.actionType == ACTION_TO_HOTBAR {
        if click.param > 8 {
          return false, changed;
        }
        var destination := 36 + click.param;
        sim.items[slot], sim.items[destination] := sim.items[destination], sim.items[slot];
        changed := changed[destination := sim.items[destination]];
      } else if click.actionType == ACTION_DROP {
        if click.param == BUTTON_RIGHT {
          sim.items[slot] := NO_ITEM;
        } else {
          sim.items[slot] := Subtract(sim.items[slot], 1);
        }
      } else {
        return false, changed;
      }
      if before != sim.items[slot] {
        changed := changed[slot := sim.items[slot]];
      }
      return true, changed;
    }

    method Simulation() returns (sim: InventorySimulation)
      requires Valid()
      ensures fresh(sim) && fresh(sim.items) && sim.items.Length == PLAYER_SLOTS
      ensures View(sim) == State().inv
    {
      var items := new Item[PLAYER_SLOTS](
        i requires 0 <= i < playerItems.Length reads this, playerItems => playerItems[i]);
      sim := new InventorySimulation(items, cursorItem);
      assert items[..] == playerItems[..];
    }

    method SendInventoryClick(click: Click) returns (ok: bool, changed: map<int, Item>)
      requires Valid()
      modifies this, playerItems
      ensures SendResult(State(), ok, changed) == Send(encodes, old(State()), click)
    {
      var sim := Simulation();
      ok, changed := ApplyInventoryClick(sim, click);
      if !ok {
        return false, map[];
      }
      if !Encodable(encodes, changed, sim.cursor) {
        return false, map[];
      }
      cursorItem := sim.cursor;
      forall i | 0 <= i < PLAYER_SLOTS {
        playerItems[i] := sim.items[i];
      }
      assert playerItems[..] == sim.items[..];
      if inventoryStateID < MAX_INT32 {
        inventoryStateID := inventoryStateID + 1;
      }
    }

    // ----- click programs --------------------------------------------------

    method SendInventoryClicks(clicks: seq<Click>, affected: AffectedSlots) returns (ok: bool)
      requires Valid()
      modifies this, playerItems, affected
      ensures var r := SendAll(encodes, old(State()), clicks);
              State() == r.session && ok == r.ok && affected.slots == old(affected.slots) + r.affected
    {
      var i := 0;
      while i < |clicks|
        invariant 0 <= i <= |clicks|
        invariant var rest := SendAll(encodes, State(), clicks[i..]);
                  SendAll(encodes, old(State()), clicks)
                  == rest.(affected := SendAll(encodes, old(State()), clicks).affected)
        invariant old(affected.slots) + SendAll(encodes, old(State()), clicks).affected
                  == affected.slots + SendAll(encodes, State(), clicks[i..]).affected
      {
        assert clicks[i..][0] == clicks[i] && clicks[i..][1..] == clicks[i + 1..];
        var sent, changed := SendInventoryClick(clicks[i]);
        if !sent {
          return false;
        }
        affected.slots := affected.slots + changed.Keys;
        i := i + 1;
      }
      return true;
    }

    // ----- requests --------------------------------------------------------

    method ValidateStackReference(reference: SlotRef, place: Place) returns (valid: bool)
      requires Valid() && (place.Slot? ==> place.index < PLAYER_SLOTS)
      ensures valid == ReferenceValid(State().inv, reference, place)
    {
      var current := if place.Cursor? then cursorItem else playerItems[place.index];
      var requested := reference.stackId;
      if requested < 0 || requested == 1 {
        return true;
      }
      return requested == current.stackId;
    }

    method TranslateStackTransfer(source: SlotRef, destination: SlotRef, count: UInt8, affected: AffectedSlots)
      returns (ok: bool)
      requires Valid()
      modifies this, playerItems, affected
      ensures var r := Execute(encodes, old(State()), Take(source, destination, count));
              State() == r.session && ok == r.ok && affected.slots == old(affected.slots) + r.affected
    {
      if count == 0 { return false; }
      var from := BedrockStackSlot(source);
      var to := BedrockStackSlot(destination);
      if from.None? || to.None? || (from.value.Cursor? && to.value.Cursor?) { return false; }
      ResolvedPlaceExists(State().inv, source);
      ResolvedPlaceExists(State().inv, destination);
      var sourceValid := ValidateStackReference(source, from.value);
      if !sourceValid { return false; }
      var destinationValid := ValidateStackReference(destination, to.value);
      if !destinationValid { return false; }
      var sourceItem := if from.value.Cursor? then cursorItem else playerItems[from.value.index];
      if Empty(sourceItem) || sourceItem.count < count { return false; }
      var destinationItem := if to.value.Cursor? then cursorItem else playerItems[to.value.index];
      if !Empty(cursorItem) && from.value.Slot? && to.value.Slot? { return false; }

      ghost var program := TransferProgram(State().inv, from.value, to.value, count);
      var clicks: seq<Click>;
      if to.value.Cursor? {
        var slot := from.value.index;
        if Empty(cursorItem) {
          if count == sourceItem.count {
            clicks := [Left(slot)];
          } else if count == sourceItem.count - sourceItem.count / 2 {
            clicks := [Right(slot)];
          } else {
            clicks := AppendClicks([Left(slot)], Right(slot), sourceItem.count - count);
          }
        } else if !SameItem(cursorItem, sourceItem) || count != sourceItem.count {
          return false;
        } else {
          clicks := [Left(slot)];
        }
      } else if from.value.Cursor? {
        var slot := to.value.index;
        if count == cursorItem.count {
          clicks := [Left(slot)];
        } else {
          clicks := AppendClicks([], Right(slot), count);
          assert clicks == Repeat(Right(slot), count);
        }
      } else {
        var sourceSlot, destinationSlot := from.value.index, to.value.index;
        if sourceSlot == destinationSlot || (!Empty(destinationItem) && !SameItem(sourceItem, destinationItem)) {
          return false;
        }
        if count == sourceItem.count {
          clicks := [Left(sourceSlot), Left(destinationSlot)];
        } else if count == sourceItem.count - sourceItem.count / 2 {
          clicks := [Right(sourceSlot), Left(destinationSlot)];
        } else {
          clicks := AppendClicks([Left(sourceSlot)], Right(destinationSlot), count);
          clicks := clicks + [Left(sourceSlot)];
        }
      }
      assert program == Some(clicks);
      ok := SendInventoryClicks(clicks, affected);
    }

    static method AppendClicks(clicks: seq<Click>, click: Click, n: nat) returns (r: seq<Click>)
      ensures r == clicks + Repeat(click, n)
    {
      r := clicks;
      for i := 0 to n
        invariant r == clicks + Repeat(click, i)
      {
        r := r + [click];
      }
    }

    method TranslateStackSwap(source: SlotRef, destination: SlotRef, affected: AffectedSlots) returns (ok: bool)
      requires Valid()
      modifies this, playerItems, affected
      ensures var r := Execute(encodes, old(State()), Swap(source, destination));
              State() == r.session && ok == r.ok && affected.slots == old(affected.slots) + r.affected
    {
      var from := BedrockStackSlot(source);
      var to := BedrockStackSlot(destination);
      if from.None? || to.None? || (from.value.Cursor? && to.value.Cursor?) { return false; }
      ResolvedPlaceExists(State().inv, source);
      ResolvedPlaceExists(State().inv, destination);
      var sourceValid := ValidateStackReference(source, from.value);
      if !sourceValid { return false; }
      var destinationValid := ValidateStackReference(destination, to.value);
      if !destinationValid { return false; }
      if from.value.Slot? && to.value.Slot? && destination.container.HotBar? && destination.slot <= 8 {
        if from.value == to.value { return false; }
        ok := SendInventoryClicks([Click(from.value.index, ACTION_TO_HOTBAR, destination.slot)], affected);
      } else if from.value.Cursor? {
        ok := SendInventoryClicks([Left(to.value.index)], affected);
      } else if to.value.Cursor? {
        ok := SendInventoryClicks([Left(from.value.index)], affected);
      } else {
        if from.value == to.value { return false; }
        ok := SendInventoryClicks([Left(from.value.index), Left(to.value.index), Left(from.value.index)], affected);
      }
    }

    method TranslateStackDrop(source: SlotRef, count: UInt8, affected: AffectedSlots) returns (ok: bool)
      requires Valid()
      modifies this, playerItems, affected
      ensures var r := Execute(encodes, old(State()), Drop(source, count));
              State() == r.session && ok == r.ok && affected.slots == old(affected.slots) + r.affected
    {
      if count == 0 { return false; }
      var from := BedrockStackSlot(source);
      if from.None? { return false; }
      ResolvedPlaceExists(State().inv, source);
      var sourceValid := ValidateStackReference(source, from.value);
      if !sourceValid { return false; }
      var item := if from.value.Cursor? then cursorItem else playerItems[from.value.index];
      if Empty(item) || item.count < count { return false; }
      var clicks: seq<Click> := [];
      if from.value.Cursor? {
        if count == item.count {
          clicks := [Click(OUTSIDE, ACTION_DROP, BUTTON_LEFT)];
        } else {
          clicks := AppendClicks(clicks, Click(OUTSIDE, ACTION_DROP, BUTTON_RIGHT), count);
          assert clicks == Repeat(Click(OUTSIDE, ACTION_DROP, BUTTON_RIGHT), count);
        }
      } else if count == item.count && item.count > 1 {
        clicks := [Click(from.value.index, ACTION_DROP, BUTTON_RIGHT)];
      } else {
        clicks := AppendClicks(clicks, Click(from.value.index, ACTION_DROP, BUTTON_LEFT), count);
        assert clicks == Repeat(Click(from.value.index, ACTION_DROP, BUTTON_LEFT), count);
      }
      assert DropProgram(State().inv, from.value, count) == Some(clicks);
      ok := SendInventoryClicks(clicks, affected);
    }

    method TranslateAction(action: Action, affected: AffectedSlots) returns (ok: bool)
      requires Valid()
      modifies this, playerItems, affected
      ensures var r := Execute(encodes, old(State()), action);
              State() == r.session && ok == r.ok && affected.slots == old(affected.slots) + r.affected
    {
      match action
      case Take(source, destination, count) =>
        ok := TranslateStackTransfer(source, destination, count, affected);
      case PlaceAction(source, destination, count) =>
        ok := TranslateStackTransfer(source, destination, count, affected);
      case PlaceInContainer(source, destination, count) =>
        ok := TranslateStackTransfer(source, destination, count, affected);
      case TakeOutContainer(source, destination, count) =>
        ok := TranslateStackTransfer(source, destination, count, affected);
      case Swap(source, destination) => ok := TranslateStackSwap(source, destination, affected);
      case Drop(source, count) => ok := TranslateStackDrop(source, count, affected);
      case MineBlock(hotbarSlot, stackId) =>
        if hotbarSlot < 0 || hotbarSlot > 8 { return false; }
        ok := ValidateStackReference(SlotRef(HotBar, false, hotbarSlot, stackId), Slot(36 + hotbarSlot));
      case Unsupported => ok := false;
    }

    // The first action, then the others.
    static lemma FirstAction(encodes: Kind -> bool, s: Session, actions: seq<Action>)
      requires |s.inv.items| == PLAYER_SLOTS && actions != []
      ensures var first, all := Execute(encodes, s, actions[0]), ExecuteAll(encodes, s, actions);
              && |first.session.inv.items| == PLAYER_SLOTS
              && (!first.ok ==> all == first)
              && (first.ok ==>
                    var rest := ExecuteAll(encodes, first.session, actions[1..]);
                    all.session == rest.session && all.ok == rest.ok && all.affected == first.affected + rest.affected)
    {
      hide Execute;
      ExecuteKeepsSlots(encodes, s, actions[0]);
    }

    // None stands for a rejection.
    method TranslateItemStackRequest(actions: seq<Action>) returns (containers: Option<seq<ContainerInfo>>)
      requires Valid()
      modifies this, playerItems
      ensures var (after, response) := Answer(encodes, old(State()), actions);
              && State() == after
              && (containers.None? <==> response.Rejected?)
              && (containers.Some? ==> Renders(number, containers.value, response))
    {
      hide Execute, ExecuteAll, Renders, SlotEntry;
      NoActions(encodes, State());
      if |actions| == 0 {
        assert actions == [];
        return None;
      }
      ghost var all := ExecuteAll(encodes, State(), actions);
      var affected := new AffectedSlots();
      var i := 0;
      while i < |actions|
        invariant 0 <= i <= |actions|
        invariant fresh(affected)
        invariant var rest := ExecuteAll(encodes, State(), actions[i..]);
                  all.session == rest.session && all.ok == rest.ok && all.affected == affected.slots + rest.affected
      {
        assert actions[i..][0] == actions[i] && actions[i..][1..] == actions[i + 1..];
        FirstAction(encodes, State(), actions[i..]);
        var ok := TranslateAction(actions[i], affected);
        if !ok { return None; }
        i := i + 1;
      }
      assert actions[i..] == [];
      NoActions(encodes, State());
      var accepted := AcceptedItemStackRequest(affected.slots);
      return Some(accepted);
    }

    static lemma NoActions(encodes: Kind -> bool, s: Session)
      requires |s.inv.items| == PLAYER_SLOTS
      ensures ExecuteAll(encodes, s, []) == RunResult(s, true, {})
    {}

    method AcceptedItemStackRequest(affected: set<int>) returns (containers: seq<ContainerInfo>)
      requires Valid()
      ensures Renders(number, containers, AcceptedResponse(State().inv, affected))
    {
      hide JavaPlayerSlot, Recorded, Grouped, Covers, Renders, AddEntry;
      ghost var inv := State().inv;
      var byContainer: ByContainer := map[];
      NothingRecorded(inv);
      var todo := affected;
      assert affected - todo == {};
      while todo != {}
        invariant todo <= affected
        invariant Grouped(byContainer) && Covers(byContainer, inv, affected - todo)
        decreases |todo|
      {
        ghost var member := SomeMember(todo);
        var javaSlot :| javaSlot in todo;
        assert affected - (todo - {javaSlot}) == (affected - todo) + {javaSlot};
        todo := todo - {javaSlot};
        var named := JavaPlayerSlot(javaSlot);
        JavaSlotRoundTrip(javaSlot, 0);
        if named.Some? {
          var (container, slot) := named.value;
          CoverOneMore(byContainer, inv, affected - todo - {javaSlot}, javaSlot);
          assert affected - todo - {javaSlot} + {javaSlot} == affected - todo;
          byContainer := AddEntry(byContainer, container, MakeSlotInfo(slot, playerItems[javaSlot]));
        } else {
          CoverSkipped(byContainer, inv, affected - todo - {javaSlot}, javaSlot);
        }
      }
      assert affected - todo == affected;
      OnlyPlayerContainers(number, byContainer, inv, affected);
      containers := OrderContainers(number, byContainer);
      RendersAccepted(number, containers, byContainer, inv, affected);
      containers := containers + [ContainerInfo(CursorContainer, [MakeSlotInfo(0, cursorItem)])];
    }

    // ----- server updates --------------------------------------------------

    method DecodeItemSlot(stack: ServerStack) returns (item: Item)
      modifies this`nextStackID
      ensures (item, nextStackID) == DecodeStack(stack, old(nextStackID))
    {
      item := NO_ITEM;
      if stack.Known? && stack.count > 0 {
        var id := NextStackNetworkID();
        item := Item(stack.kind, stack.count, id);
      }
    }

    method TranslateWindowItems(stateId: Int32, stacks: seq<ServerStack>, carried: ServerStack)
      requires Valid()
      modifies this, playerItems
      ensures State() == Step(encodes, old(State()), WindowItems(stateId, stacks, carried))
    {
      ghost var decoded := DecodeStacks(stacks, nextStackID);
      var items: seq<Item> := [];
      assert stacks[0..] == stacks && items + decoded.0 == decoded.0;
      for i := 0 to |stacks|
        invariant |items| == i
        invariant playerItems[..] == old(playerItems[..])
        invariant var rest := DecodeStacks(stacks[i..], nextStackID);
                  decoded == (items + rest.0, rest.1)
      {
        assert stacks[i..][0] == stacks[i] && stacks[i..][1..] == stacks[i + 1..];
        var item := DecodeItemSlot(stacks[i]);
        ghost var rest := DecodeStacks(stacks[i + 1..], nextStackID);
        assert items + ([item] + rest.0) == (items + [item]) + rest.0;
        items := items + [item];
      }
      var cursor := DecodeItemSlot(carried);
      forall i | 0 <= i < PLAYER_SLOTS {
        playerItems[i] := NO_ITEM;
      }
      forall i | 0 <= i < PLAYER_SLOTS && i < |items| {
        playerItems[i] := items[i];
      }
      assert playerItems[..] == FitPlayerItems(items);
      cursorItem := cursor;
      inventoryStateID := stateId;
    }

    method TranslateSetSlot(windowId: Int32, stateId: Int32, slot: int, stack: ServerStack)
      requires Valid()
      modifies this, playerItems
      ensures State() == Step(encodes, old(State()), SetSlot(windowId, stateId, slot, stack))
    {
      var item := DecodeItemSlot(stack);
      if windowId > 0 { return; }
      if windowId == -1 && slot == -1 {
        cursorItem := item;
        inventoryStateID := stateId;
        return;
      }
      if windowId != 0 && windowId != -2 { return; }
      if 0 <= slot < playerItems.Length {
        playerItems[slot] := item;
        inventoryStateID := stateId;
      }
    }

    method TranslateSetCursorItem(stack: ServerStack)
      requires Valid()
      modifies this
      ensures State() == Step(encodes, old(State()), SetCursor(stack))
    {
      var item := DecodeItemSlot(stack);
      cursorItem := item;
    }
  }
}
