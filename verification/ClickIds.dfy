// The invariant of stack IDs that runs keep: present stacks carry different
// IDs, all below the counter, for as long as the counter has room.
module ClickIds {
  import opened Widths
  import opened Items
  import opened Clicks

  // Present stacks carry pairwise different IDs, all handed out already.
  ghost predicate IdsSound(inv: Inventory) {
    && inv.nextId >= 1
    && (forall p: Place | HasPlace(inv, p) && !Empty(At(inv, p)) :: 0 < At(inv, p).stackId < inv.nextId)
    && (forall p: Place, q: Place | HasPlace(inv, p) && HasPlace(inv, q) && p != q
          && !Empty(At(inv, p)) && !Empty(At(inv, q)) :: At(inv, p).stackId != At(inv, q).stackId)
  }

  // The counter as the click allocator sees it.
  function Peak(next: Int32): Int32 {
    if next < 2 then 2 else next
  }

  // The stack IDs that a click uses up: a right click that splits a stack or
  // puts one item down takes one, even if its packet cannot be written.
  function IdsUsed(inv: Inventory, click: Click): nat
    requires |inv.items| == PLAYER_SLOTS
  {
    if 0 <= click.slot < PLAYER_SLOTS && click.actionType == ACTION_CLICK && click.param == BUTTON_RIGHT
       && Empty(inv.cursor) != Empty(inv.items[click.slot])
    then 1 else 0
  }

  function RunIdsUsed(encodes: Kind -> bool, s: Session, clicks: seq<Click>): nat
    requires |s.inv.items| == PLAYER_SLOTS
    decreases |clicks|
  {
    if clicks == [] then 0
    else
      var first := Send(encodes, s, clicks[0]);
      SendKeepsSlots(encodes, s, clicks[0]);
      IdsUsed(s.inv, clicks[0]) + if first.ok then RunIdsUsed(encodes, first.session, clicks[1..]) else 0
  }

  // Where the ID of a present stack comes from: a stack present before, a
  // different one for each place, or the allocator.
  ghost predicate Traced(before: Inventory, after: Inventory, from: Place -> Place, isNew: Place -> bool) {
    && before.nextId <= after.nextId
    && (forall p: Place | HasPlace(after, p) && !Empty(At(after, p)) ::
          if isNew(p) then before.nextId <= At(after, p).stackId < after.nextId
          else HasPlace(before, from(p)) && !Empty(At(before, from(p)))
               && At(after, p).stackId == At(before, from(p)).stackId)
    && (forall p: Place, q: Place | HasPlace(after, p) && HasPlace(after, q) && p != q
          && !Empty(At(after, p)) && !Empty(At(after, q)) ::
          if isNew(p) then !isNew(q) else isNew(q) || from(p) != from(q))
  }

  lemma TracedKeepsIds(before: Inventory, after: Inventory, from: Place -> Place, isNew: Place -> bool)
    requires IdsSound(before) && Traced(before, after, from, isNew)
    ensures IdsSound(after)
  {}

  // The place whose stack a place holds after the two exchanged.
  function Exchange(a: Place, b: Place): Place -> Place {
    p => if p == a then b else if p == b then a else p
  }

  lemma LeftClickKeepsIds(inv: Inventory, slot: nat)
    requires slot < |inv.items| && IdsSound(inv)
    ensures IdsSound(LeftClick(inv, slot))
  {
    var target := inv.items[slot];
    if SameItem(inv.cursor, target) {
      TracedKeepsIds(inv, LeftClick(inv, slot), p => p, p => false);
    } else {
      TracedKeepsIds(inv, LeftClick(inv, slot), Exchange(Cursor, Slot(slot)), p => false);
    }
  }

  lemma RightClickKeepsIds(inv: Inventory, slot: nat)
    requires slot < |inv.items| && IdsSound(inv)
    requires inv.nextId < MAX_INT32 || Empty(inv.cursor) == Empty(inv.items[slot])
    ensures IdsSound(RightClick(inv, slot))
  {
    var target := inv.items[slot];
    var after := RightClick(inv, slot);
    if Empty(inv.cursor) {
      TracedKeepsIds(inv, after, p => p, p => p == Cursor);
    } else if Empty(target) {
      TracedKeepsIds(inv, after, p => p, p => p == Slot(slot));
    } else if SameItem(inv.cursor, target) {
      TracedKeepsIds(inv, after, p => p, p => false);
    } else {
      TracedKeepsIds(inv, after, Exchange(Cursor, Slot(slot)), p => false);
    }
  }

  // A click that uses an ID at the end of the counter's range leaves a present
  // stack whose ID is not below the counter any more.
  lemma WrapBreaksIds(inv: Inventory, click: Click)
    requires |inv.items| == PLAYER_SLOTS && inv.nextId == MAX_INT32 && IdsUsed(inv, click) == 1
    ensures ApplyClick(inv, click).Applied? && !IdsSound(ApplyClick(inv, click).inv)
  {
    var after := ApplyClick(inv, click).inv;
    var place := if Empty(inv.cursor) then Cursor else Slot(click.slot);
    assert HasPlace(after, place) && At(after, place).stackId == MAX_INT32;
  }

  // A click keeps the IDs sound if and only if the counter has room for the
  // one it uses.
  lemma ClickKeepsIds(inv: Inventory, click: Click)
    requires |inv.items| == PLAYER_SLOTS && ApplyClick(inv, click).Applied? && IdsSound(inv)
    ensures IdsSound(ApplyClick(inv, click).inv) <==> Peak(inv.nextId) + IdsUsed(inv, click) <= MAX_INT32
    ensures Peak(inv.nextId) + IdsUsed(inv, click) <= MAX_INT32 ==>
              ApplyClick(inv, click).inv.nextId
              == if IdsUsed(inv, click) == 0 then inv.nextId else Peak(inv.nextId) + IdsUsed(inv, click)
  {
    if Peak(inv.nextId) + IdsUsed(inv, click) <= MAX_INT32 {
      ClickWithRoomKeepsIds(inv, click);
    } else {
      WrapBreaksIds(inv, click);
    }
  }

  lemma ClickWithRoomKeepsIds(inv: Inventory, click: Click)
    requires |inv.items| == PLAYER_SLOTS && ApplyClick(inv, click).Applied?
    requires IdsSound(inv) && Peak(inv.nextId) + IdsUsed(inv, click) <= MAX_INT32
    ensures IdsSound(ApplyClick(inv, click).inv)
    ensures ApplyClick(inv, click).inv.nextId
            == if IdsUsed(inv, click) == 0 then inv.nextId else Peak(inv.nextId) + IdsUsed(inv, click)
  {
    hide IdsSound;
    var after := ApplyClick(inv, click).inv;
    if click.slot == OUTSIDE {
      TracedKeepsIds(inv, after, p => p, p => false);
    } else if click.actionType == ACTION_CLICK {
      if click.param == BUTTON_RIGHT { RightClickKeepsIds(inv, click.slot); }
      else { LeftClickKeepsIds(inv, click.slot); }
    } else if click.actionType == ACTION_TO_HOTBAR {
      TracedKeepsIds(inv, after, Exchange(Slot(click.slot), Slot(36 + click.param)), p => false);
    } else {
      TracedKeepsIds(inv, after, p => p, p => false);
    }
  }

  lemma SendKeepsIds(encodes: Kind -> bool, s: Session, click: Click)
    requires |s.inv.items| == PLAYER_SLOTS
    requires IdsSound(s.inv) && Peak(s.inv.nextId) + IdsUsed(s.inv, click) <= MAX_INT32
    ensures IdsSound(Send(encodes, s, click).session.inv)
    ensures Peak(Send(encodes, s, click).session.inv.nextId) == Peak(s.inv.nextId) + IdsUsed(s.inv, click)
  {
    if ApplyClick(s.inv, click).Applied? {
      ClickKeepsIds(s.inv, click);
      var kept := s.inv.(nextId := ApplyClick(s.inv, click).inv.nextId);
      TracedKeepsIds(s.inv, kept, p => p, p => false);
    }
  }

  // As long as the counter has room for the IDs that a program uses up, they
  // stay sound, even when the program stops half way.
  lemma {:induction false} RunKeepsIds(encodes: Kind -> bool, s: Session, clicks: seq<Click>)
    requires |s.inv.items| == PLAYER_SLOTS && IdsSound(s.inv)
    requires Peak(s.inv.nextId) + RunIdsUsed(encodes, s, clicks) <= MAX_INT32
    ensures IdsSound(SendAll(encodes, s, clicks).session.inv)
    ensures Peak(SendAll(encodes, s, clicks).session.inv.nextId)
            == Peak(s.inv.nextId) + RunIdsUsed(encodes, s, clicks)
    decreases |clicks|
  {
    if clicks != [] {
      var first := Send(encodes, s, clicks[0]);
      SendKeepsIds(encodes, s, clicks[0]);
      if first.ok {
        SendKeepsSlots(encodes, s, clicks[0]);
        RunKeepsIds(encodes, first.session, clicks[1..]);
      }
    }
  }

  // A merge keeps the ID of the stack clicked on and of what stays on the
  // cursor; a split leaves the old ID on the slot and a new one on the cursor;
  // a single item put into an empty slot gets a new ID.
  lemma SplitAndMergeIds(inv: Inventory, slot: nat)
    requires slot < |inv.items| && IdsSound(inv) && inv.nextId < MAX_INT32
    ensures forall after |
              after in [LeftClick(inv, slot), RightClick(inv, slot)] && SameItem(inv.cursor, inv.items[slot]) ::
              after.items[slot].stackId == inv.items[slot].stackId
              && (Empty(after.cursor) || after.cursor.stackId == inv.cursor.stackId)
              && after.nextId == inv.nextId
    ensures var after := RightClick(inv, slot);
            Empty(inv.cursor) && !Empty(inv.items[slot]) ==>
              (Empty(after.items[slot]) || after.items[slot].stackId == inv.items[slot].stackId)
              && inv.nextId <= after.cursor.stackId < after.nextId
    ensures var after := RightClick(inv, slot);
            !Empty(inv.cursor) && Empty(inv.items[slot]) ==>
              (Empty(after.cursor) || after.cursor.stackId == inv.cursor.stackId)
              && inv.nextId <= after.items[slot].stackId < after.nextId
  {}

  // One ID before the wrap: nine stones in slot 9, one in slot 20 with ID 2.
  function BeforeWrap(): Inventory {
    Inventory(seq(PLAYER_SLOTS, _ => NO_ITEM)[9 := Item(Kind(1, 0), 9, 3)][20 := Item(Kind(1, 0), 1, 2)],
              NO_ITEM, MAX_INT32)
  }

  // Once the counter wraps, IDs in use can be handed out again: splitting slot
  // 9 takes the last ID, and the single stone put into slot 10 then gets 2.
  lemma IdsCollideAfterWrap()
    ensures IdsSound(BeforeWrap())
    ensures var after := RightClick(RightClick(BeforeWrap(), 9), 10);
            && !Empty(after.items[10]) && !Empty(after.items[20])
            && after.items[10].stackId == after.items[20].stackId
            && !IdsSound(after)
  {
    var inv := BeforeWrap();
    var first := RightClick(inv, 9);
    assert first.cursor == Item(Kind(1, 0), 5, MAX_INT32) && first.nextId == 2;
    var second := RightClick(first, 10);
    assert At(second, Slot(10)).stackId == At(second, Slot(20)).stackId;
  }
}
