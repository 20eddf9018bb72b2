// Exactly when stack IDs stay different, wherever the counter stands: the law
// that remains once the counter has wrapped.
module IdLaws {
  import opened Widths
  import opened Items
  import opened Clicks
  import opened ClickLaws
  import opened ClickIds
  import opened SessionLaws

  // Present stacks carry pairwise different IDs.
  ghost predicate IdsDiffer(inv: Inventory) {
    forall p: Place, q: Place | HasPlace(inv, p) && HasPlace(inv, q) && p != q
      && !Empty(At(inv, p)) && !Empty(At(inv, q)) :: At(inv, p).stackId != At(inv, q).stackId
  }

  // A present stack other than the one at the place carries the ID.
  ghost predicate CarriedElsewhere(inv: Inventory, place: Place, id: Int32) {
    exists q: Place :: HasPlace(inv, q) && q != place && !Empty(At(inv, q)) && At(inv, q).stackId == id
  }

  // Sound IDs differ, and the next one is not carried by any stack.
  lemma SoundIdsDiffer(inv: Inventory, place: Place)
    requires IdsSound(inv)
    ensures IdsDiffer(inv) && !CarriedElsewhere(inv, place, inv.nextId)
  {}

  // ----- one click ---------------------------------------------------------

  // Where the stack with a new ID appears, and where its items come from.
  function NewPlace(inv: Inventory, slot: nat): Place {
    if Empty(inv.cursor) then Cursor else Slot(slot)
  }

  function SplitPlace(inv: Inventory, slot: nat): Place {
    if Empty(inv.cursor) then Slot(slot) else Cursor
  }

  // Some present stack carries the ID and is not the single item that the
  // click takes away from its place.
  ghost predicate Taken(inv: Inventory, slot: nat, id: Int32)
    requires slot < |inv.items|
  {
    exists q: Place :: HasPlace(inv, q) && !Empty(At(inv, q)) && At(inv, q).stackId == id
                       && !(q == SplitPlace(inv, slot) && At(inv, q).count == 1)
  }

  // One stack got the ID, at a place that was empty; the others are those from
  // before, without the one that is gone.
  lemma NewIdExact(before: Inventory, after: Inventory, place: Place, id: Int32, gone: Place -> bool)
    requires IdsDiffer(before) && |after.items| == |before.items|
    requires HasPlace(after, place) && Empty(At(before, place))
    requires !Empty(At(after, place)) && At(after, place).stackId == id
    requires forall p: Place | HasPlace(before, p) && p != place ::
               && (Empty(At(after, p)) <==> Empty(At(before, p)) || gone(p))
               && (!Empty(At(after, p)) ==> At(after, p).stackId == At(before, p).stackId)
    ensures IdsDiffer(after)
            <==> !exists q: Place ::
                   HasPlace(before, q) && !Empty(At(before, q)) && At(before, q).stackId == id && !gone(q)
  {
    if q: Place :| HasPlace(before, q) && !Empty(At(before, q)) && At(before, q).stackId == id && !gone(q) {
      assert HasPlace(after, q) && q != place && At(after, q).stackId == At(after, place).stackId;
    }
  }

  lemma SplitExact(inv: Inventory, slot: nat)
    requires slot < |inv.items| && IdsDiffer(inv) && Empty(inv.cursor) != Empty(inv.items[slot])
    ensures IdsDiffer(RightClick(inv, slot)) <==> !Taken(inv, slot, AllocateClickId(inv.nextId).0)
  {
    hide IdsDiffer;
    var split := SplitPlace(inv, slot);
    NewIdExact(inv, RightClick(inv, slot), NewPlace(inv, slot), AllocateClickId(inv.nextId).0,
               q => q == split && HasPlace(inv, q) && At(inv, q).count == 1);
  }

  lemma TracedIdsDiffer(before: Inventory, after: Inventory, from: Place -> Place)
    requires IdsDiffer(before) && Traced(before, after, from, p => false)
    ensures IdsDiffer(after)
  {}

  lemma LeftClickIdsDiffer(inv: Inventory, slot: nat)
    requires slot < |inv.items| && IdsDiffer(inv)
    ensures IdsDiffer(LeftClick(inv, slot))
  {
    hide IdsDiffer;
    if SameItem(inv.cursor, inv.items[slot]) {
      TracedIdsDiffer(inv, LeftClick(inv, slot), p => p);
    } else {
      TracedIdsDiffer(inv, LeftClick(inv, slot), Exchange(Cursor, Slot(slot)));
    }
  }

  lemma RightClickIdsDiffer(inv: Inventory, slot: nat)
    requires slot < |inv.items| && IdsDiffer(inv) && Empty(inv.cursor) == Empty(inv.items[slot])
    ensures IdsDiffer(RightClick(inv, slot))
  {
    hide IdsDiffer;
    if Empty(inv.cursor) || SameItem(inv.cursor, inv.items[slot]) {
      TracedIdsDiffer(inv, RightClick(inv, slot), p => p);
    } else {
      TracedIdsDiffer(inv, RightClick(inv, slot), Exchange(Cursor, Slot(slot)));
    }
  }

  // Whether the click gives a stack an ID that another present stack keeps.
  ghost predicate Collides(inv: Inventory, click: Click)
    requires |inv.items| == PLAYER_SLOTS
  {
    IdsUsed(inv, click) == 1 && Taken(inv, click.slot, AllocateClickId(inv.nextId).0)
  }

  // A click keeps different IDs different if and only if it uses no ID or the
  // one it is handed is not taken, before and after the counter wraps.
  lemma ClickIdsExact(inv: Inventory, click: Click)
    requires |inv.items| == PLAYER_SLOTS && ApplyClick(inv, click).Applied? && IdsDiffer(inv)
    ensures IdsDiffer(ApplyClick(inv, click).inv) <==> !Collides(inv, click)
  {
    hide IdsDiffer, Taken, LeftClick, RightClick;
    var after := ApplyClick(inv, click).inv;
    if click.slot == OUTSIDE {
      TracedIdsDiffer(inv, after, p => p);
    } else if click.actionType == ACTION_CLICK {
      if click.param != BUTTON_RIGHT { LeftClickIdsDiffer(inv, click.slot); }
      else if IdsUsed(inv, click) == 0 { RightClickIdsDiffer(inv, click.slot); }
      else { SplitExact(inv, click.slot); }
    } else if click.actionType == ACTION_TO_HOTBAR {
      TracedIdsDiffer(inv, after, Exchange(Slot(click.slot), Slot(36 + click.param)));
    } else {
      TracedIdsDiffer(inv, after, p => p);
    }
  }

  // The wrap alone does no harm: the split that takes the last ID leaves all IDs
  // different, and only the next one collides.
  lemma FirstCollisionIsTheSecondClick()
    ensures var inv := BeforeWrap();
            && IdsDiffer(RightClick(inv, 9)) && !IdsSound(RightClick(inv, 9))
            && RightClick(inv, 9).nextId == 2
            && Collides(RightClick(inv, 9), Click(10, ACTION_CLICK, BUTTON_RIGHT))
  {
    var inv := BeforeWrap();
    var split := RightClick(inv, 9);
    SoundIdsDiffer(inv, Cursor) by { IdsCollideAfterWrap(); }
    ClickIdsExact(inv, Click(9, ACTION_CLICK, BUTTON_RIGHT));
    assert At(split, Cursor).stackId == MAX_INT32;
    assert At(split, Slot(20)).stackId == 2;
  }

  // ----- click programs ----------------------------------------------------

  lemma SendIdsExact(encodes: Kind -> bool, s: Session, click: Click)
    requires |s.inv.items| == PLAYER_SLOTS && IdsDiffer(s.inv)
    ensures var sent := Send(encodes, s, click);
            IdsDiffer(sent.session.inv) <==> !(sent.ok && Collides(s.inv, click))
  {
    hide Collides, ApplyClick;
    if ApplyClick(s.inv, click).Applied? {
      ClickIdsExact(s.inv, click);
      var kept := s.inv.(nextId := ApplyClick(s.inv, click).inv.nextId);
      CounterDoesNotMatter(s.inv, kept.nextId);
    }
  }

  lemma CounterDoesNotMatter(inv: Inventory, next: Int32)
    ensures IdsDiffer(inv.(nextId := next)) <==> IdsDiffer(inv)
  {
    assert forall p: Place | HasPlace(inv, p) :: At(inv, p) == At(inv.(nextId := next), p);
  }

  // The IDs differ before and after every click of a program.
  ghost predicate DifferThroughout(encodes: Kind -> bool, s: Session, clicks: seq<Click>)
    requires |s.inv.items| == PLAYER_SLOTS
    decreases |clicks|
  {
    IdsDiffer(s.inv)
    && (clicks != [] ==>
          var first := Send(encodes, s, clicks[0]);
          && IdsDiffer(first.session.inv)
          && (first.ok ==> (SendKeepsSlots(encodes, s, clicks[0]);
                            DifferThroughout(encodes, first.session, clicks[1..]))))
  }

  // No click that is sent collides.
  ghost predicate NeverCollides(encodes: Kind -> bool, s: Session, clicks: seq<Click>)
    requires |s.inv.items| == PLAYER_SLOTS
    decreases |clicks|
  {
    clicks != [] ==>
      var first := Send(encodes, s, clicks[0]);
      first.ok ==>
        !Collides(s.inv, clicks[0])
        && (SendKeepsSlots(encodes, s, clicks[0]);
            NeverCollides(encodes, first.session, clicks[1..]))
  }

  lemma {:induction false} ProgramIdsExact(encodes: Kind -> bool, s: Session, clicks: seq<Click>)
    requires |s.inv.items| == PLAYER_SLOTS && IdsDiffer(s.inv)
    ensures DifferThroughout(encodes, s, clicks) <==> NeverCollides(encodes, s, clicks)
    decreases |clicks|
  {
    hide IdsDiffer, Collides, Send;
    if clicks != [] {
      SendIdsExact(encodes, s, clicks[0]);
      var first := Send(encodes, s, clicks[0]);
      if first.ok && IdsDiffer(first.session.inv) {
        SendKeepsSlots(encodes, s, clicks[0]);
        ProgramIdsExact(encodes, first.session, clicks[1..]);
      }
    }
  }

  // ----- server updates ----------------------------------------------------

  function Replaced(inv: Inventory, p: Place, item: Item): Inventory
    requires HasPlace(inv, p)
  {
    if p.Cursor? then inv.(cursor := item) else inv.(items := inv.items[p.index := item])
  }

  lemma ReplacedIdsExact(inv: Inventory, p: Place, item: Item)
    requires HasPlace(inv, p) && IdsDiffer(inv)
    ensures IdsDiffer(Replaced(inv, p, item)) <==> Empty(item) || !CarriedElsewhere(inv, p, item.stackId)
  {
    var after := Replaced(inv, p, item);
    assert At(after, p) == item && HasPlace(after, p);
    assert forall q: Place | HasPlace(inv, q) && q != p :: At(after, q) == At(inv, q) && HasPlace(after, q);
    if !Empty(item) && CarriedElsewhere(inv, p, item.stackId) {
      var q: Place :| HasPlace(inv, q) && q != p && !Empty(At(inv, q)) && At(inv, q).stackId == item.stackId;
      assert At(after, q).stackId == At(after, p).stackId;
    }
  }

  // The place that an update of a single slot replaces.
  function UpdatedPlace(event: Event): Option<Place>
    requires event.SetSlot? || event.SetCursor?
  {
    match event
    case SetCursor(_) => Some(Cursor)
    case SetSlot(windowId, _, slot, _) =>
      if windowId == -1 && slot == -1 then Some(Cursor)
      else if (windowId == 0 || windowId == -2) && 0 <= slot < PLAYER_SLOTS then Some(Slot(slot))
      else None
  }

  // An update of one slot or the cursor keeps different IDs different if and
  // only if it replaces nothing, the stack is absent, or no other present stack
  // carries the ID that it is handed.
  lemma UpdateIdsExact(encodes: Kind -> bool, s: Session, event: Event)
    requires |s.inv.items| == PLAYER_SLOTS && IdsDiffer(s.inv) && (event.SetSlot? || event.SetCursor?)
    ensures var place, item := UpdatedPlace(event), DecodeStack(event.stack, s.inv.nextId).0;
            IdsDiffer(Step(encodes, s, event).inv)
            <==> place.None? || Empty(item) || !CarriedElsewhere(s.inv, place.value, item.stackId)
  {
    hide IdsDiffer, CarriedElsewhere;
    var place := UpdatedPlace(event);
    var (item, next) := DecodeStack(event.stack, s.inv.nextId);
    var after := Step(encodes, s, event).inv;
    if place.Some? {
      ReplacedIdsExact(s.inv, place.value, item);
      assert after == Replaced(s.inv, place.value, item).(nextId := next);
      CounterDoesNotMatter(Replaced(s.inv, place.value, item), next);
    } else {
      assert after == s.inv.(nextId := next);
      CounterDoesNotMatter(s.inv, next);
    }
  }

  // The ID handed out after n others, starting over at 1.
  function CyclicId(next: Int32, n: nat): Int32 {
    (if next <= 0 then n else next - 1 + n) % MAX_INT32 + 1
  }

  lemma CyclicIdsDiffer(next: Int32, m: nat, n: nat)
    requires m < n < m + MAX_INT32
    ensures CyclicId(next, m) != CyclicId(next, n)
  {
    var base: int := if next <= 0 then 0 else next - 1;
    var a, b := (base + m) / MAX_INT32, (base + n) / MAX_INT32;
    assert n - m == (b - a) * MAX_INT32 + ((base + n) % MAX_INT32 - (base + m) % MAX_INT32);
  }

  lemma CyclicStep(next: Int32, n: nat)
    ensures AllocateServerId(next).0 == CyclicId(next, 0)
    ensures CyclicId(AllocateServerId(next).1, n) == CyclicId(next, n + 1)
  {
    if next == MAX_INT32 {
      DivModUnique(MAX_INT32 - 1 + n + 1, MAX_INT32, n / MAX_INT32 + 1, n % MAX_INT32);
    }
  }

  lemma {:induction false} DecodedIdsAreCyclic(stacks: seq<ServerStack>, next: Int32, i: nat)
    requires i < |stacks|
    ensures var item := DecodeStacks(stacks, next).0[i];
            !Empty(item) ==> item.stackId == CyclicId(next, DecodedIds(stacks[..i])) && DecodedIds([stacks[i]]) == 1
    ensures DecodedIds([stacks[i]]) == 1 ==> DecodedIds(stacks[..i]) < DecodedIds(stacks)
  {
    hide CyclicId;
    var (item, after) := DecodeStack(stacks[0], next);
    assert [stacks[i]][1..] == [];
    if i == 0 {
      CyclicStep(next, 0);
    } else {
      assert stacks[..i][1..] == stacks[1..][..i - 1];
      DecodedIdsAreCyclic(stacks[1..], after, i - 1);
      CyclicStep(next, DecodedIds(stacks[1..][..i - 1]));
    }
  }

  lemma {:induction false} DecodedCounterIsCyclic(stacks: seq<ServerStack>, next: Int32)
    ensures CyclicId(DecodeStacks(stacks, next).1, 0) == CyclicId(next, DecodedIds(stacks))
  {
    hide CyclicId;
    if stacks != [] {
      DecodedCounterIsCyclic(stacks[1..], DecodeStack(stacks[0], next).1);
      CyclicStep(next, DecodedIds(stacks[1..]));
    }
  }

  // A full content update leaves all IDs different wherever the counter stands,
  // unless it holds more stacks than there are IDs.
  lemma ContentIdsDiffer(encodes: Kind -> bool, s: Session, event: Event)
    requires |s.inv.items| == PLAYER_SLOTS && event.WindowItems?
    requires DecodedIds(event.stacks) < MAX_INT32
    ensures IdsDiffer(Step(encodes, s, event).inv)
  {
    hide CyclicId, DecodedIds, DecodeStacks;
    var next, stacks := s.inv.nextId, event.stacks;
    var (items, after) := DecodeStacks(stacks, next);
    var (cursor, last) := DecodeStack(event.carried, after);
    forall i, j | 0 <= i < j < |items| && !Empty(items[i]) && !Empty(items[j])
      ensures items[i].stackId != items[j].stackId
    {
      DecodedIdsInOrder(stacks, next, i, j);
      DecodedIdsAreCyclic(stacks, next, j);
      CyclicIdsDiffer(next, DecodedIds(stacks[..i]), DecodedIds(stacks[..j]));
    }
    forall i | 0 <= i < |items| && !Empty(items[i]) && !Empty(cursor) ensures items[i].stackId != cursor.stackId {
      DecodedIdsAreCyclic(stacks, next, i);
      DecodedCounterIsCyclic(stacks, next);
      CyclicStep(after, 0);
      CyclicIdsDiffer(next, DecodedIds(stacks[..i]), DecodedIds(stacks));
    }
    FittedIdsDiffer(items, cursor, last);
    assert Step(encodes, s, event).inv == Inventory(FitPlayerItems(items), cursor, last);
  }

  lemma DecodedIdsInOrder(stacks: seq<ServerStack>, next: Int32, i: nat, j: nat)
    requires i < j < |stacks| && !Empty(DecodeStacks(stacks, next).0[i])
    ensures DecodeStacks(stacks, next).0[i].stackId == CyclicId(next, DecodedIds(stacks[..i]))
    ensures DecodedIds(stacks[..i]) < DecodedIds(stacks[..j])
  {
    DecodedIdsAreCyclic(stacks, next, i);
    DecodedIdsAreCyclic(stacks[..j], next, i);
    assert stacks[..j][..i] == stacks[..i];
  }

  lemma FittedIdsDiffer(items: seq<Item>, cursor: Item, next: Int32)
    requires forall i, j | 0 <= i < j < |items| && !Empty(items[i]) && !Empty(items[j]) ::
               items[i].stackId != items[j].stackId
    requires forall i | 0 <= i < |items| && !Empty(items[i]) && !Empty(cursor) :: items[i].stackId != cursor.stackId
    ensures IdsDiffer(Inventory(FitPlayerItems(items), cursor, next))
  {
    assert forall i | 0 <= i < PLAYER_SLOTS :: FitPlayerItems(items)[i] == if i < |items| then items[i] else NO_ITEM;
  }
}
