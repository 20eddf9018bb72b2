// What the compiled click programs do: the exact conditions under which
// transfers, swaps and drops have the effect that was asked for.
module TransferLaws {
  import opened Widths
  import opened Items
  import opened Clicks
  import opened ClickLaws
  import opened Requests

  // ----- click programs as functions on inventories -------------------------

  predicate OnSlots(clicks: seq<Click>) {
    forall c | c in clicks :: 0 <= c.slot < PLAYER_SLOTS && c.actionType == ACTION_CLICK
  }

  function Press(inv: Inventory, click: Click): Inventory
    requires 0 <= click.slot < |inv.items|
  {
    if click.param == BUTTON_RIGHT then RightClick(inv, click.slot) else LeftClick(inv, click.slot)
  }

  function PressAll(inv: Inventory, clicks: seq<Click>): (r: Inventory)
    requires |inv.items| == PLAYER_SLOTS && OnSlots(clicks)
    ensures |r.items| == PLAYER_SLOTS
    decreases |clicks|
  {
    if clicks == [] then inv
    else
      assert clicks[0] in clicks;
      PressAll(Press(inv, clicks[0]), clicks[1..])
  }

  lemma {:induction false} SentIsPressed(encodes: Kind -> bool, s: Session, clicks: seq<Click>)
    requires |s.inv.items| == PLAYER_SLOTS && OnSlots(clicks)
    ensures var r := SendAll(encodes, s, clicks); r.ok ==> r.session.inv == PressAll(s.inv, clicks)
    decreases |clicks|
  {
    if clicks != [] {
      assert clicks[0] in clicks;
      var first := Send(encodes, s, clicks[0]);
      if first.ok {
        SendKeepsSlots(encodes, s, clicks[0]);
        SentIsPressed(encodes, first.session, clicks[1..]);
      }
    }
  }

  lemma {:induction false} PressAllConcat(inv: Inventory, a: seq<Click>, b: seq<Click>)
    requires |inv.items| == PLAYER_SLOTS && OnSlots(a) && OnSlots(b)
    ensures OnSlots(a + b) && PressAll(inv, a + b) == PressAll(PressAll(inv, a), b)
    decreases |a|
  {
    if a == [] {
      assert a + b == b;
    } else {
      assert a[0] in a;
      assert (a + b)[1..] == a[1..] + b;
      PressAllConcat(Press(inv, a[0]), a[1..], b);
    }
  }

  lemma SingleClick(encodes: Kind -> bool, s: Session, click: Click)
    requires |s.inv.items| == PLAYER_SLOTS
    ensures var r := SendAll(encodes, s, [click]);
            r.ok ==> ApplyClick(s.inv, click).Applied? && r.session.inv == ApplyClick(s.inv, click).inv
  {
    if Send(encodes, s, click).ok {
      SendKeepsSlots(encodes, s, click);
      assert [click][1..] == [];
    }
  }

  // ----- repeated right clicks ---------------------------------------------

  function Deposited(target: Item, n: nat): nat {
    var held := if Empty(target) then 0 else target.count;
    Min(n, if held < MAX_STACK_SIZE then MAX_STACK_SIZE - held else 0)
  }

  // n right clicks deposit one item each until the slot holds 64.
  lemma {:induction false} RightClicksDeposit(inv: Inventory, slot: nat, n: nat)
    requires |inv.items| == PLAYER_SLOTS && slot < PLAYER_SLOTS
    requires !Empty(inv.cursor) && n < inv.cursor.count
    requires Empty(inv.items[slot]) || SameItem(inv.cursor, inv.items[slot])
    ensures OnSlots(Repeat(Right(slot), n))
    ensures var r := PressAll(inv, Repeat(Right(slot), n));
            var m := Deposited(inv.items[slot], n);
            && r.cursor == inv.cursor.(count := inv.cursor.count - m)
            && (n > 0 ==> ContentOf(r.items[slot]) == More(inv.items[slot], inv.cursor.kind, m))
            && (n == 0 ==> r == inv)
            && (forall i | 0 <= i < PLAYER_SLOTS && i != slot :: r.items[i] == inv.items[i])
    decreases n
  {
    if n > 0 {
      var clicks := Repeat(Right(slot), n);
      assert clicks[0] == Right(slot) && clicks[1..] == Repeat(Right(slot), n - 1);
      RightClicksDeposit(RightClick(inv, slot), slot, n - 1);
    }
  }

  // Right clicks on a different item only swap it with the cursor.
  lemma {:induction false} RightClicksSwap(inv: Inventory, slot: nat, n: nat)
    requires |inv.items| == PLAYER_SLOTS && slot < PLAYER_SLOTS
    requires !Empty(inv.cursor) && !Empty(inv.items[slot]) && inv.cursor.kind != inv.items[slot].kind
    ensures OnSlots(Repeat(Right(slot), n))
    ensures var r := PressAll(inv, Repeat(Right(slot), n));
            r == if n % 2 == 0 then inv
                 else inv.(cursor := inv.items[slot], items := inv.items[slot := inv.cursor])
    decreases n
  {
    if n > 0 {
      var clicks := Repeat(Right(slot), n);
      var once := RightClick(inv, slot);
      assert clicks[0] == Right(slot) && clicks[1..] == Repeat(Right(slot), n - 1);
      RightClicksSwap(once, slot, n - 1);
      assert once.items[slot := once.cursor] == inv.items;
    }
  }

  // ----- transfers ---------------------------------------------------------

  // `count` items went from one place to the other and nothing else happened.
  ghost predicate Moves(before: Inventory, after: Inventory, from: Place, to: Place, count: nat)
    requires HasPlace(before, from) && HasPlace(before, to) && |after.items| == |before.items|
  {
    && ContentOf(At(after, from)) == Less(At(before, from), count)
    && ContentOf(At(after, to)) == More(At(before, to), At(before, from).kind, count)
    && forall p: Place | HasPlace(before, p) && p != from && p != to :: Alike(At(before, p), At(after, p))
  }

  // The exact guard under which an accepted transfer moves what was asked.
  predicate TransferGuard(inv: Inventory, from: Place, to: Place, count: nat)
    requires HasPlace(inv, from) && HasPlace(inv, to)
  {
    var source, target := At(inv, from), At(inv, to);
    var whole := count == source.count || (from.Slot? && count == CeilHalf(source.count));
    if to.Cursor? then Empty(target) && (whole || source.count - count <= MAX_STACK_SIZE)
    else if Empty(target) then whole || count <= MAX_STACK_SIZE
    else SameItem(source, target) && target.count + count <= MAX_STACK_SIZE
  }

  predicate AcceptedTransfer(inv: Inventory, from: Place, to: Place, count: UInt8) {
    && |inv.items| == PLAYER_SLOTS
    && HasPlace(inv, from) && HasPlace(inv, to) && count > 0
    && TransferProgram(inv, from, to, count).Some?
  }

  lemma TransferToCursor(inv: Inventory, from: Place, count: UInt8)
    requires AcceptedTransfer(inv, from, Cursor, count)
    ensures var clicks := TransferProgram(inv, from, Cursor, count).value;
            OnSlots(clicks)
            && (Moves(inv, PressAll(inv, clicks), from, Cursor, count) <==> TransferGuard(inv, from, Cursor, count))
  {
    var clicks := TransferProgram(inv, from, Cursor, count).value;
    var slot, source := from.index, At(inv, from);
    if |clicks| == 1 {
      assert PressAll(inv, clicks) == Press(inv, clicks[0]);
      assert At(PressAll(inv, clicks), from) == PressAll(inv, clicks).items[slot];
    } else {
      var n := source.count - count;
      var picked := LeftClick(inv, slot);
      assert clicks[0] == Left(slot) && clicks[1..] == Repeat(Right(slot), n);
      RightClicksDeposit(picked, slot, n);
      var after := PressAll(inv, clicks);
      assert At(after, from) == after.items[slot];
    }
  }

  lemma TransferFromCursor(inv: Inventory, to: Place, count: UInt8)
    requires AcceptedTransfer(inv, Cursor, to, count)
    ensures var clicks := TransferProgram(inv, Cursor, to, count).value;
            OnSlots(clicks)
            && (Moves(inv, PressAll(inv, clicks), Cursor, to, count) <==> TransferGuard(inv, Cursor, to, count))
  {
    var clicks := TransferProgram(inv, Cursor, to, count).value;
    var slot, target := to.index, At(inv, to);
    if count == inv.cursor.count {
      assert PressAll(inv, clicks) == Press(inv, clicks[0]);
      assert At(PressAll(inv, clicks), to) == PressAll(inv, clicks).items[slot];
    } else {
      if Empty(target) || SameItem(inv.cursor, target) {
        RightClicksDeposit(inv, slot, count);
      } else {
        RightClicksSwap(inv, slot, count);
      }
      var after := PressAll(inv, clicks);
      assert At(after, to) == after.items[slot];
    }
  }

  lemma SlotTransferProgramEffect(inv: Inventory, from: Place, to: Place, count: UInt8) returns (after: Inventory)
    requires AcceptedTransfer(inv, from, to, count) && from.Slot? && to.Slot?
    ensures var clicks := TransferProgram(inv, from, to, count).value;
            OnSlots(clicks) && after == PressAll(inv, clicks)
    ensures var source, target := At(inv, from), At(inv, to);
            if count == source.count then
              after == LeftClick(LeftClick(inv, from.index), to.index)
            else if count == CeilHalf(source.count) then
              after == LeftClick(RightClick(inv, from.index), to.index)
            else
              var m := Deposited(target, count);
              && ContentOf(after.items[to.index]) == More(target, source.kind, m)
              && after.items[from.index] == source.(count := source.count - m)
              && after.cursor == NO_ITEM
              && (forall i | 0 <= i < PLAYER_SLOTS && i != from.index && i != to.index ::
                    after.items[i] == inv.items[i])
  {
    var clicks := TransferProgram(inv, from, to, count).value;
    after := PressAll(inv, clicks);
    var source := At(inv, from);
    if count == source.count || count == CeilHalf(source.count) {
      assert clicks == [clicks[0], clicks[1]];
      assert PressAll(Press(inv, clicks[0]), clicks[1..]) == Press(Press(inv, clicks[0]), clicks[1]);
    } else {
      var rights := Repeat(Right(to.index), count);
      var first, last := [Left(from.index)], [Left(from.index)];
      var picked := LeftClick(inv, from.index);
      RightClicksDeposit(picked, to.index, count);
      PressAllConcat(inv, first, rights);
      PressAllConcat(inv, first + rights, last);
      assert PressAll(inv, first) == picked;
      var dropped := PressAll(picked, rights);
      assert after == LeftClick(dropped, from.index);
    }
  }

  lemma TransferBetweenSlots(inv: Inventory, from: Place, to: Place, count: UInt8)
    requires AcceptedTransfer(inv, from, to, count) && from.Slot? && to.Slot?
    ensures var clicks := TransferProgram(inv, from, to, count).value;
            OnSlots(clicks)
            && (Moves(inv, PressAll(inv, clicks), from, to, count) <==> TransferGuard(inv, from, to, count))
  {
    var after := SlotTransferProgramEffect(inv, from, to, count);
    assert At(after, from) == after.items[from.index] && At(after, to) == after.items[to.index];
    assert At(after, Cursor) == after.cursor && HasPlace(inv, Cursor);
  }

  // An accepted transfer moves exactly `count` items and touches nothing else
  // if and only if its guard held, whichever of the three click strategies was
  // compiled.
  lemma TransferExact(encodes: Kind -> bool, s: Session, source: SlotRef, destination: SlotRef, count: UInt8)
    requires |s.inv.items| == PLAYER_SLOTS
    requires CompileTransfer(s.inv, source, destination, count).Some?
    requires Execute(encodes, s, Take(source, destination, count)).ok
    ensures var from, to := BedrockStackSlot(source).value, BedrockStackSlot(destination).value;
            var after := Execute(encodes, s, Take(source, destination, count)).session.inv;
            && |after.items| == PLAYER_SLOTS
            && HasPlace(s.inv, from) && HasPlace(s.inv, to)
            && (Moves(s.inv, after, from, to, count) <==> TransferGuard(s.inv, from, to, count))
  {
    ResolvedPlaceExists(s.inv, source);
    ResolvedPlaceExists(s.inv, destination);
    var from, to := BedrockStackSlot(source).value, BedrockStackSlot(destination).value;
    var clicks := TransferProgram(s.inv, from, to, count).value;
    if to.Cursor? {
      TransferToCursor(s.inv, from, count);
    } else if from.Cursor? {
      TransferFromCursor(s.inv, to, count);
    } else {
      TransferBetweenSlots(s.inv, from, to, count);
    }
    SentIsPressed(encodes, s, clicks);
  }

  // With legal stacks, a destination that has room and a cursor that is empty
  // unless it is the source, every accepted transfer does what was asked.
  lemma LegalTransferMoves(encodes: Kind -> bool, s: Session, source: SlotRef, destination: SlotRef, count: UInt8)
    requires |s.inv.items| == PLAYER_SLOTS && Capped(s.inv)
    requires CompileTransfer(s.inv, source, destination, count).Some?
    requires var from, to := BedrockStackSlot(source).value, BedrockStackSlot(destination).value;
             && HasPlace(s.inv, from) && HasPlace(s.inv, to)
             && (from.Slot? ==> Empty(s.inv.cursor))
             && (Empty(At(s.inv, to))
                 || (SameItem(At(s.inv, from), At(s.inv, to)) && At(s.inv, to).count + count <= MAX_STACK_SIZE))
    requires Execute(encodes, s, Take(source, destination, count)).ok
    ensures var from, to := BedrockStackSlot(source).value, BedrockStackSlot(destination).value;
            var after := Execute(encodes, s, Take(source, destination, count)).session.inv;
            |after.items| == PLAYER_SLOTS && Moves(s.inv, after, from, to, count)
  {
    TransferExact(encodes, s, source, destination, count);
  }

  // ----- swaps -------------------------------------------------------------

  lemma ThreeLeftClicks(inv: Inventory, a: nat, b: nat)
    requires |inv.items| == PLAYER_SLOTS && a < PLAYER_SLOTS && b < PLAYER_SLOTS
    ensures OnSlots([Left(a), Left(b), Left(a)])
    ensures PressAll(inv, [Left(a), Left(b), Left(a)]) == LeftClick(LeftClick(LeftClick(inv, a), b), a)
  {
    var clicks := [Left(a), Left(b), Left(a)];
    var first := LeftClick(inv, a);
    var second := LeftClick(first, b);
    assert clicks[1..] == [Left(b), Left(a)] && clicks[1..][1..] == [Left(a)];
    assert PressAll(first, [Left(b), Left(a)]) == PressAll(second, [Left(a)]);
    assert PressAll(second, [Left(a)]) == LeftClick(second, a);
  }

  // Three left clicks exchange two slots, stack IDs included, and give the
  // cursor back whatever it holds, when no two of the three stacks can merge.
  lemma ThreeClickSwap(inv: Inventory, a: nat, b: nat)
    requires |inv.items| == PLAYER_SLOTS && a < PLAYER_SLOTS && b < PLAYER_SLOTS && a != b
    requires !SameItem(inv.items[a], inv.items[b])
    requires !SameItem(inv.cursor, inv.items[a]) && !SameItem(inv.cursor, inv.items[b])
    ensures OnSlots([Left(a), Left(b), Left(a)])
    ensures var r := PressAll(inv, [Left(a), Left(b), Left(a)]);
            && Alike(r.items[a], inv.items[b]) && Alike(r.items[b], inv.items[a]) && Alike(r.cursor, inv.cursor)
            && r.nextId == inv.nextId
            && (forall i | 0 <= i < PLAYER_SLOTS && i != a && i != b :: r.items[i] == inv.items[i])
  {
    ThreeLeftClicks(inv, a, b);
  }

  // What two places hold has changed sides and every other place holds what
  // it held.
  ghost predicate Exchanges(before: Inventory, after: Inventory, from: Place, to: Place)
    requires HasPlace(before, from) && HasPlace(before, to) && |after.items| == |before.items|
  {
    && ContentOf(At(after, from)) == ContentOf(At(before, to))
    && ContentOf(At(after, to)) == ContentOf(At(before, from))
    && forall p: Place | HasPlace(before, p) && p != from && p != to ::
         ContentOf(At(after, p)) == ContentOf(At(before, p))
  }

  // Merging `moved` into `target` exchanges their counts: exactly when the
  // merge fills the target to the count of the other.
  predicate TradesByMerging(moved: Item, target: Item) {
    moved.count == if target.count < MAX_STACK_SIZE then MAX_STACK_SIZE else target.count
  }

  // The exact guard under which an accepted swap exchanges two places.
  predicate SwapGuard(inv: Inventory, from: Place, to: Place)
    requires HasPlace(inv, from) && HasPlace(inv, to)
  {
    var a, b, c := At(inv, from), At(inv, to), inv.cursor;
    if from.Cursor? then !SameItem(a, b) || TradesByMerging(a, b)
    else if to.Cursor? then !SameItem(a, b) || TradesByMerging(b, a)
    else ThreeGuard(a, b, c)
  }

  // A left click as a function of the two stacks it works on.
  function LeftPair(target: Item, cursor: Item): (Item, Item) {
    var inv := LeftClick(Inventory([target], cursor, 1), 0);
    (inv.items[0], inv.cursor)
  }

  lemma LeftClickIsLocal(inv: Inventory, slot: nat)
    requires slot < |inv.items|
    ensures var (target, cursor) := LeftPair(inv.items[slot], inv.cursor);
            LeftClick(inv, slot) == inv.(items := inv.items[slot := target], cursor := cursor)
  {
    assert inv.items[slot := inv.items[slot]] == inv.items;
  }

  // The three left clicks on the three stacks involved.
  function SwapThree(a: Item, b: Item, c: Item): (r: (Item, Item, Item)) {
    var (a1, c1) := LeftPair(a, c);
    var (b2, c2) := LeftPair(b, c1);
    var (a3, c3) := LeftPair(a1, c2);
    (a3, b2, c3)
  }

  predicate ThreeGuard(a: Item, b: Item, c: Item) {
    if SameItem(a, b) && SameItem(a, c) then a.count == b.count >= MAX_STACK_SIZE
    else if SameItem(a, b) then TradesByMerging(a, b)
    else if SameItem(a, c) then TradesByMerging(c, a)
    else if SameItem(b, c) then TradesByMerging(b, c)
    else true
  }

  lemma SwapThreeExact(a: Item, b: Item, c: Item)
    ensures var (a', b', c') := SwapThree(a, b, c);
            (ContentOf(a') == ContentOf(b) && ContentOf(b') == ContentOf(a) && ContentOf(c') == ContentOf(c))
            <==> ThreeGuard(a, b, c)
  {}

  lemma SlotSwapExact(inv: Inventory, a: nat, b: nat)
    requires |inv.items| == PLAYER_SLOTS && a < PLAYER_SLOTS && b < PLAYER_SLOTS && a != b
    ensures var after := LeftClick(LeftClick(LeftClick(inv, a), b), a);
            Exchanges(inv, after, Slot(a), Slot(b)) <==> ThreeGuard(inv.items[a], inv.items[b], inv.cursor)
  {
    var first := LeftClick(inv, a);
    var second := LeftClick(first, b);
    var after := LeftClick(second, a);
    LeftClickIsLocal(inv, a);
    LeftClickIsLocal(first, b);
    LeftClickIsLocal(second, a);
    SwapThreeExact(inv.items[a], inv.items[b], inv.cursor);
    assert (after.items[a], after.items[b], after.cursor) == SwapThree(inv.items[a], inv.items[b], inv.cursor);
    assert At(after, Slot(a)) == after.items[a] && At(after, Slot(b)) == after.items[b];
    assert HasPlace(inv, Cursor) && At(after, Cursor) == after.cursor && At(inv, Cursor) == inv.cursor;
    forall p: Place | HasPlace(inv, p) && p != Slot(a) && p != Slot(b) && p != Cursor
      ensures ContentOf(At(after, p)) == ContentOf(At(inv, p))
    {}
  }

  lemma CursorSwapExact(inv: Inventory, slot: nat)
    requires |inv.items| == PLAYER_SLOTS && slot < PLAYER_SLOTS
    ensures var after := LeftClick(inv, slot);
            && (Exchanges(inv, after, Cursor, Slot(slot)) <==> SwapGuard(inv, Cursor, Slot(slot)))
  {
    var after := LeftClick(inv, slot);
    assert At(after, Slot(slot)) == after.items[slot] && At(after, Cursor) == after.cursor;
  }

  // An accepted swap exchanges its two places if and only if the destination
  // was named as a hotbar slot or its guard held; by the hotbar click the
  // exchange is exact, stack IDs included.
  lemma SwapExact(encodes: Kind -> bool, s: Session, source: SlotRef, destination: SlotRef)
    requires |s.inv.items| == PLAYER_SLOTS
    requires CompileSwap(s.inv, source, destination).Some?
    requires Execute(encodes, s, Swap(source, destination)).ok
    ensures var from, to := BedrockStackSlot(source).value, BedrockStackSlot(destination).value;
            var after := Execute(encodes, s, Swap(source, destination)).session.inv;
            && |after.items| == PLAYER_SLOTS
            && HasPlace(s.inv, from) && HasPlace(s.inv, to)
            && (from.Slot? && destination.container.HotBar? ==>
                  after == s.inv.(items := s.inv.items[from.index := s.inv.items[to.index]]
                                                      [to.index := s.inv.items[from.index]]))
            && (!(from.Slot? && destination.container.HotBar?) ==>
                  (Exchanges(s.inv, after, from, to) <==> SwapGuard(s.inv, from, to)))
  {
    ResolvedPlaceExists(s.inv, source);
    ResolvedPlaceExists(s.inv, destination);
    var from, to := BedrockStackSlot(source).value, BedrockStackSlot(destination).value;
    var clicks := CompileSwap(s.inv, source, destination).value;
    if from.Slot? && destination.container.HotBar? {
      SingleClick(encodes, s, clicks[0]);
    } else if from.Cursor? {
      CursorSwapExact(s.inv, to.index);
      assert OnSlots(clicks) && PressAll(s.inv, clicks) == LeftClick(s.inv, to.index);
      SentIsPressed(encodes, s, clicks);
    } else if to.Cursor? {
      CursorSwapExact(s.inv, from.index);
      assert OnSlots(clicks) && PressAll(s.inv, clicks) == LeftClick(s.inv, from.index);
      SentIsPressed(encodes, s, clicks);
    } else {
      SlotSwapExact(s.inv, from.index, to.index);
      ThreeLeftClicks(s.inv, from.index, to.index);
      SentIsPressed(encodes, s, clicks);
    }
  }

  // ----- drops -------------------------------------------------------------

  // `count` items left one place and nothing else changed.
  ghost predicate Removes(before: Inventory, after: Inventory, from: Place, count: nat)
    requires HasPlace(before, from) && |after.items| == |before.items|
  {
    && ContentOf(At(after, from)) == Less(At(before, from), count)
    && forall p: Place | HasPlace(before, p) && p != from :: At(before, p) == At(after, p)
  }

  // n single drops remove n items from the place they aim at.
  lemma {:induction false} SingleDrops(encodes: Kind -> bool, s: Session, from: Place, click: Click, n: nat)
    requires |s.inv.items| == PLAYER_SLOTS && HasPlace(s.inv, from)
    requires !Empty(At(s.inv, from)) && n <= At(s.inv, from).count
    requires click == if from.Cursor? then Click(OUTSIDE, ACTION_DROP, BUTTON_RIGHT)
                                      else Click(from.index, ACTION_DROP, BUTTON_LEFT)
    ensures var r := SendAll(encodes, s, Repeat(click, n));
            r.ok ==> |r.session.inv.items| == PLAYER_SLOTS && Removes(s.inv, r.session.inv, from, n)
    decreases n
  {
    if n > 0 {
      var clicks := Repeat(click, n);
      assert clicks[0] == click && clicks[1..] == Repeat(click, n - 1);
      var first := Send(encodes, s, click);
      if first.ok {
        SendKeepsSlots(encodes, s, click);
        var inv := first.session.inv;
        assert At(inv, from) == Subtract(At(s.inv, from), 1);
        if n > 1 {
          SingleDrops(encodes, first.session, from, click, n - 1);
        } else {
          assert clicks[1..] == [];
        }
        var r := SendAll(encodes, s, clicks);
        assert r.session == SendAll(encodes, first.session, clicks[1..]).session;
        forall p: Place | HasPlace(s.inv, p) && p != from && r.ok
          ensures At(s.inv, p) == At(r.session.inv, p)
        {
          assert At(s.inv, p) == At(inv, p);
        }
      }
    }
  }

  // An accepted drop removes exactly `count` items, except that dropping a
  // whole cursor stack of more than one removes a single item.
  lemma DropExact(encodes: Kind -> bool, s: Session, source: SlotRef, count: UInt8)
    requires |s.inv.items| == PLAYER_SLOTS
    requires CompileDrop(s.inv, source, count).Some?
    requires Execute(encodes, s, Drop(source, count)).ok
    ensures var from := BedrockStackSlot(source).value;
            var after := Execute(encodes, s, Drop(source, count)).session.inv;
            && |after.items| == PLAYER_SLOTS && HasPlace(s.inv, from)
            && (Removes(s.inv, after, from, count) <==> !(from.Cursor? && count == s.inv.cursor.count && count > 1))
            && (from.Cursor? && count == s.inv.cursor.count ==> Removes(s.inv, after, from, 1))
  {
    ResolvedPlaceExists(s.inv, source);
    var from := BedrockStackSlot(source).value;
    var clicks := CompileDrop(s.inv, source, count).value;
    var after := Execute(encodes, s, Drop(source, count)).session.inv;
    if |clicks| == 1 {
      SingleClick(encodes, s, clicks[0]);
      assert clicks == [clicks[0]];
      assert after == ApplyClick(s.inv, clicks[0]).inv;
    } else {
      SingleDrops(encodes, s, from, clicks[0], count);
      assert clicks == Repeat(clicks[0], count);
    }
  }

  // ----- acceptance --------------------------------------------------------

  ghost predicate AllEncode(encodes: Kind -> bool, inv: Inventory) {
    forall p: Place | HasPlace(inv, p) && !Empty(At(inv, p)) :: encodes(At(inv, p).kind)
  }

  predicate Legal(click: Click) {
    if click.slot == OUTSIDE then click.actionType == ACTION_DROP
    else 0 <= click.slot < PLAYER_SLOTS
         && (click.actionType in {ACTION_CLICK, ACTION_DROP}
             || (click.actionType == ACTION_TO_HOTBAR && click.param <= 8))
  }

  lemma LegalClickIsSent(encodes: Kind -> bool, s: Session, click: Click)
    requires |s.inv.items| == PLAYER_SLOTS && AllEncode(encodes, s.inv) && Legal(click)
    ensures Send(encodes, s, click).ok && AllEncode(encodes, Send(encodes, s, click).session.inv)
  {
    var after := ApplyClick(s.inv, click).inv;
    var touched := if click.slot == OUTSIDE then Cursor else Slot(click.slot);
    var other :=
      if click.actionType == ACTION_TO_HOTBAR && click.slot != OUTSIDE then Slot(36 + click.param) else Cursor;
    assert HasPlace(s.inv, touched) && HasPlace(s.inv, other) && HasPlace(s.inv, Cursor);
    assert At(s.inv, touched) == At(s.inv, touched) && At(s.inv, other) == At(s.inv, other)
        && At(s.inv, Cursor) == s.inv.cursor;
    forall p: Place | HasPlace(after, p) && !Empty(At(after, p)) ensures encodes(At(after, p).kind) {
      assert At(s.inv, p) == At(s.inv, p);
    }
    var changed := ApplyClick(s.inv, click).changed;
    forall slot | slot in changed ensures Empty(changed[slot]) || encodes(changed[slot].kind) {
      assert changed[slot] == At(after, Slot(slot));
    }
    assert At(after, Cursor) == after.cursor;
  }

  lemma {:induction false} LegalClicksAreSent(encodes: Kind -> bool, s: Session, clicks: seq<Click>)
    requires |s.inv.items| == PLAYER_SLOTS && AllEncode(encodes, s.inv)
    requires forall c | c in clicks :: Legal(c)
    ensures SendAll(encodes, s, clicks).ok
    ensures AllEncode(encodes, SendAll(encodes, s, clicks).session.inv)
    decreases |clicks|
  {
    if clicks != [] {
      assert clicks[0] in clicks;
      LegalClickIsSent(encodes, s, clicks[0]);
      SendKeepsSlots(encodes, s, clicks[0]);
      LegalClicksAreSent(encodes, Send(encodes, s, clicks[0]).session, clicks[1..]);
    }
  }

  // While every stack has a Java form, an action succeeds exactly when it
  // compiles, and every stack still has a Java form afterwards.
  lemma AcceptedIffCompiled(encodes: Kind -> bool, s: Session, action: Action)
    requires |s.inv.items| == PLAYER_SLOTS && AllEncode(encodes, s.inv)
    ensures Execute(encodes, s, action).ok <==> Compile(s.inv, action).Some?
    ensures AllEncode(encodes, Execute(encodes, s, action).session.inv)
  {
    var program := Compile(s.inv, action);
    if program.Some? {
      CompiledIsLegal(s.inv, action);
      LegalClicksAreSent(encodes, s, program.value);
    }
  }

  lemma TransferIsLegal(inv: Inventory, from: Place, to: Place, count: UInt8)
    requires |inv.items| == PLAYER_SLOTS && HasPlace(inv, from) && HasPlace(inv, to)
    requires TransferProgram(inv, from, to, count).Some?
    ensures forall c | c in TransferProgram(inv, from, to, count).value :: Legal(c)
  {}

  lemma DropIsLegal(inv: Inventory, from: Place, count: UInt8)
    requires |inv.items| == PLAYER_SLOTS && HasPlace(inv, from) && DropProgram(inv, from, count).Some?
    ensures forall c | c in DropProgram(inv, from, count).value :: Legal(c)
  {}

  lemma CompiledIsLegal(inv: Inventory, action: Action)
    requires |inv.items| == PLAYER_SLOTS && Compile(inv, action).Some?
    ensures forall c | c in Compile(inv, action).value :: Legal(c)
  {
    if action.Drop? {
      DropIsLegal(inv, BedrockStackSlot(action.source).value, action.count);
      hide DropProgram;
    } else if !action.Swap? && !action.MineBlock? {
      TransferIsLegal(inv, BedrockStackSlot(action.source).value, BedrockStackSlot(action.destination).value,
                      action.count);
      hide TransferProgram;
    }
  }
}
