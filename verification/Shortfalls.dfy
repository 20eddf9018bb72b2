// Accepted requests that do not do what was asked: one for each way in which
// the guards of transfers, swaps and drops can fail.
module Shortfalls {
  import opened Widths
  import opened Items
  import opened Clicks
  import opened Requests
  import opened TransferLaws

  const STONE := Kind(1, 0)
  const DIRT := Kind(2, 0)

  // A session with stacks in slots 9 and 10 and on the cursor.
  function Holding(nine: Item, ten: Item, cursor: Item): Session {
    Session(Inventory(seq(PLAYER_SLOTS, _ => NO_ITEM)[9 := nine][10 := ten], cursor, 5), 0)
  }

  const NINE := SlotRef(MainInventory, false, 9, -1)
  const TEN := SlotRef(MainInventory, false, 10, -1)
  const HELD := SlotRef(CursorContainer, false, 0, -1)

  // The program's clicks are pressed one after the other and all are sent.
  lemma TwoClicks(s: Session, action: Action, first: Click, second: Click)
    requires |s.inv.items| == PLAYER_SLOTS && Compile(s.inv, action) == Some([first, second])
    requires OnSlots([first, second])
    ensures var r := Execute(k => true, s, action);
            r.ok && r.session.inv == Press(Press(s.inv, first), second)
  {
    AcceptedIffCompiled(k => true, s, action);
    SentIsPressed(k => true, s, [first, second]);
    assert [first, second][1..] == [second];
    assert PressAll(Press(s.inv, first), [second]) == Press(Press(s.inv, first), second);
  }

  lemma OneClick(s: Session, action: Action, click: Click)
    requires |s.inv.items| == PLAYER_SLOTS && Compile(s.inv, action) == Some([click])
    ensures var r := Execute(k => true, s, action);
            r.ok && ApplyClick(s.inv, click) == Applied(r.session.inv, ApplyClick(s.inv, click).changed)
  {
    AcceptedIffCompiled(k => true, s, action);
    SingleClick(k => true, s, click);
  }

  // Dropping the six items on the cursor leaves five.
  lemma WholeCursorDropLeavesFive()
    ensures var s := Holding(NO_ITEM, NO_ITEM, Item(STONE, 6, 2));
            var r := Execute(k => true, s, Drop(HELD, 6));
            && r.ok && |r.session.inv.items| == PLAYER_SLOTS
            && r.session.inv.cursor == Item(STONE, 5, 2)
            && !Removes(s.inv, r.session.inv, Cursor, 6)
  {
    var s := Holding(NO_ITEM, NO_ITEM, Item(STONE, 6, 2));
    OneClick(s, Drop(HELD, 6), Click(OUTSIDE, ACTION_DROP, BUTTON_LEFT));
  }

  // Placing three stones onto dirt exchanges them.
  lemma PlaceOntoOtherKindSwaps()
    ensures var s := Holding(Item(DIRT, 4, 3), NO_ITEM, Item(STONE, 3, 2));
            var r := Execute(k => true, s, PlaceAction(HELD, NINE, 3));
            && r.ok && |r.session.inv.items| == PLAYER_SLOTS
            && r.session.inv.items[9] == Item(STONE, 3, 2) && r.session.inv.cursor == Item(DIRT, 4, 3)
            && !Moves(s.inv, r.session.inv, Cursor, Slot(9), 3)
  {
    var s := Holding(Item(DIRT, 4, 3), NO_ITEM, Item(STONE, 3, 2));
    OneClick(s, PlaceAction(HELD, NINE, 3), Left(9));
    TransferExact(k => true, s, HELD, NINE, 3);
  }

  // Taking six stones onto a cursor with three puts the three into the slot.
  lemma TakeOntoCursorMergesBack()
    ensures var s := Holding(Item(STONE, 6, 3), NO_ITEM, Item(STONE, 3, 2));
            var r := Execute(k => true, s, Take(NINE, HELD, 6));
            && r.ok && |r.session.inv.items| == PLAYER_SLOTS
            && r.session.inv.items[9] == Item(STONE, 9, 3) && Empty(r.session.inv.cursor)
            && !Moves(s.inv, r.session.inv, Slot(9), Cursor, 6)
  {
    var s := Holding(Item(STONE, 6, 3), NO_ITEM, Item(STONE, 3, 2));
    OneClick(s, Take(NINE, HELD, 6), Left(9));
    TransferExact(k => true, s, NINE, HELD, 6);
  }

  // Moving ten stones to a slot with sixty leaves six of them on the cursor.
  lemma TransferWithoutRoomStrandsItems()
    ensures var s := Holding(Item(STONE, 10, 3), Item(STONE, 60, 2), NO_ITEM);
            var r := Execute(k => true, s, Take(NINE, TEN, 10));
            && r.ok && |r.session.inv.items| == PLAYER_SLOTS
            && Empty(r.session.inv.items[9]) && r.session.inv.items[10] == Item(STONE, 64, 2)
            && r.session.inv.cursor == Item(STONE, 6, 3)
            && !Moves(s.inv, r.session.inv, Slot(9), Slot(10), 10)
  {
    var s := Holding(Item(STONE, 10, 3), Item(STONE, 60, 2), NO_ITEM);
    TwoClicks(s, Take(NINE, TEN, 10), Left(9), Left(10));
    TransferExact(k => true, s, NINE, TEN, 10);
  }

  // Swapping six stones with three merges them in the second slot.
  lemma SwapOfEqualKindsMerges()
    ensures var s := Holding(Item(STONE, 6, 3), Item(STONE, 3, 2), NO_ITEM);
            var r := Execute(k => true, s, Swap(NINE, TEN));
            && r.ok && |r.session.inv.items| == PLAYER_SLOTS
            && Empty(r.session.inv.items[9]) && r.session.inv.items[10] == Item(STONE, 9, 2)
            && !Exchanges(s.inv, r.session.inv, Slot(9), Slot(10))
  {
    var s := Holding(Item(STONE, 6, 3), Item(STONE, 3, 2), NO_ITEM);
    AcceptedIffCompiled(k => true, s, Swap(NINE, TEN));
    ThreeLeftClicks(s.inv, 9, 10);
    SentIsPressed(k => true, s, [Left(9), Left(10), Left(9)]);
    SwapExact(k => true, s, NINE, TEN);
  }
}
