// Which references, clicks, actions and requests are accepted, in terms of
// slot numbers and of the stacks that are there.
module Acceptance {
  import opened Widths
  import opened Items
  import opened Clicks
  import opened ClickLaws
  import opened Requests
  import opened TransferLaws
  import opened SessionLaws

  // ----- references --------------------------------------------------------

  // The Bedrock names of a Java slot. The output, the offhand, the hotbar and
  // the main inventory have two each.
  function NamesOfSlot(j: nat): set<(Container, int)> {
    if j == 0 then {(CreatedOutput, 0), (CreatedOutput, 50)}
    else if j <= 4 then {(CraftingInput, 27 + j)}
    else if j <= 8 then {(Armor, j - 5)}
    else if j <= 35 then {(MainInventory, j), (CombinedHotBarAndInventory, j)}
    else if j <= 44 then {(HotBar, j - 36), (CombinedHotBarAndInventory, j - 36)}
    else if j == 45 then {(Offhand, 0), (Offhand, 1)}
    else {}
  }

  // A reference resolves to a Java slot if and only if it is one of the slot's
  // names, and to the cursor if and only if it is slot 0 of its container.
  lemma ReferencesExact(ref: SlotRef, j: nat)
    ensures BedrockStackSlot(ref) == Some(Slot(j))
            <==> !ref.dynamicContainer && (ref.container, ref.slot) in NamesOfSlot(j)
    ensures BedrockStackSlot(ref) == Some(Cursor)
            <==> !ref.dynamicContainer && ref.container == CursorContainer && ref.slot == 0
  {}

  // Other names resolve like those that responses use, and nothing else
  // resolves at all.
  lemma OtherNamesExact(ref: SlotRef)
    requires !ref.dynamicContainer
    ensures ref.container == CombinedHotBarAndInventory && ref.slot <= 8 ==>
              BedrockStackSlot(ref) == BedrockStackSlot(ref.(container := HotBar))
    ensures ref.container == CombinedHotBarAndInventory && 9 <= ref.slot <= 35 ==>
              BedrockStackSlot(ref) == BedrockStackSlot(ref.(container := MainInventory))
    ensures ref.container == Offhand && ref.slot == 1 ==> BedrockStackSlot(ref) == BedrockStackSlot(ref.(slot := 0))
    ensures ref.container == CreatedOutput && ref.slot == 50 ==>
              BedrockStackSlot(ref) == BedrockStackSlot(ref.(slot := 0))
    ensures BedrockStackSlot(ref).Some? ==>
              || (ref.container == CursorContainer && ref.slot == 0)
              || (ref.container == CombinedHotBarAndInventory && ref.slot <= 35)
              || (ref.container == Offhand && ref.slot == 1)
              || (ref.container == CreatedOutput && ref.slot == 50)
              || exists j | 0 <= j < 46 :: JavaPlayerSlot(j) == Some((ref.container, ref.slot))
  {
    var p := BedrockStackSlot(ref);
    if p.Some? && p.value.Slot? {
      ReferencesExact(ref, p.value.index);
      NamedByResponses(p.value.index);
    }
  }

  // Responses use the first name of every Java slot.
  lemma NamedByResponses(j: nat)
    ensures j < 46 <==> JavaPlayerSlot(j).Some?
    ensures j < 46 ==> JavaPlayerSlot(j).value.0 != CombinedHotBarAndInventory
                       && (JavaPlayerSlot(j).value.0, JavaPlayerSlot(j).value.1 as int) in NamesOfSlot(j)
    ensures j < 46 ==> forall name | name in NamesOfSlot(j) ::
                         name == (JavaPlayerSlot(j).value.0, JavaPlayerSlot(j).value.1 as int)
                         || name.0 == CombinedHotBarAndInventory || name in {(Offhand, 1), (CreatedOutput, 50)}
  {}

  // ----- clicks ------------------------------------------------------------

  predicate Present(item: Item) {
    item.count > 0 && item.kind.networkId != 0
  }

  lemma PresentExact(item: Item)
    ensures Present(item) <==> !Empty(item)
  {}

  // The clicks that the simulation refuses.
  lemma RefusedExactly(inv: Inventory, click: Click)
    requires |inv.items| == 46
    ensures ApplyClick(inv, click).Refused?
            <==> if click.slot == -999 then click.actionType !in {0, 4}
                 else click.slot < 0 || click.slot >= 46 || click.actionType !in {0, 2, 4}
                      || (click.actionType == 2 && click.param > 8)
  {}

  // Outside the window a left click drops the cursor stack; a right click and
  // the drop action drop one item. Slots do not change.
  lemma OutsideExact(inv: Inventory, click: Click)
    requires |inv.items| == 46 && click.slot == -999 && click.actionType in {0, 4} && Present(inv.cursor)
    ensures var r := ApplyClick(inv, click);
            && r.Applied? && r.changed == map[] && r.inv.items == inv.items && r.inv.nextId == inv.nextId
            && (if click.actionType == 4 || click.param == 1
                then if inv.cursor.count == 1 then !Present(r.inv.cursor)
                     else r.inv.cursor == inv.cursor.(count := inv.cursor.count - 1)
                else !Present(r.inv.cursor))
  {}

  // A click is sent if and only if it is applied and every slot that it changes,
  // the target of a hotbar click and the cursor have a Java form. The revision
  // then grows by one up to its maximum; an unsent click changes only the ID
  // counter.
  lemma SentExactly(encodes: Kind -> bool, s: Session, click: Click)
    requires |s.inv.items| == PLAYER_SLOTS
    ensures var sent, r := Send(encodes, s, click), ApplyClick(s.inv, click);
            && (sent.ok <==>
                  && r.Applied? && |r.inv.items| == 46
                  && (Present(r.inv.cursor) ==> encodes(r.inv.cursor.kind))
                  && forall i | 0 <= i < 46 && (r.inv.items[i] != s.inv.items[i] || IsHotbarTarget(click, i)) ::
                       Present(r.inv.items[i]) ==> encodes(r.inv.items[i].kind))
            && (sent.ok ==> sent.session == Session(r.inv, Min(s.stateId + 1, 0x7fff_ffff)))
            && (!sent.ok ==> sent.session == s.(inv := s.inv.(nextId := sent.session.inv.nextId)))
  {
    var r := ApplyClick(s.inv, click);
    if r.Applied? {
      DeltaComplete(s.inv, click);
      hide ApplyClick;
      forall i | i in r.changed ensures r.changed[i] == r.inv.items[i] && 0 <= i < 46 {}
    }
  }

  // A program that is sent to its end counts every click.
  lemma {:induction false} RevisionCounts(encodes: Kind -> bool, s: Session, clicks: seq<Click>)
    requires |s.inv.items| == PLAYER_SLOTS
    ensures var r := SendAll(encodes, s, clicks);
            r.ok ==> r.session.stateId == Min(s.stateId + |clicks|, 0x7fff_ffff)
    decreases |clicks|
  {
    if clicks != [] {
      hide ApplyClick;
      var first := Send(encodes, s, clicks[0]);
      if first.ok {
        SendKeepsSlots(encodes, s, clicks[0]);
        RevisionCounts(encodes, first.session, clicks[1..]);
      }
    }
  }

  // ----- actions -----------------------------------------------------------

  predicate SameStack(a: Item, b: Item) {
    Present(a) && Present(b) && a.kind == b.kind
  }

  // The reference names a place and does not contradict the stack there.
  predicate Refers(inv: Inventory, ref: SlotRef) {
    && BedrockStackSlot(ref).Some? && HasPlace(inv, BedrockStackSlot(ref).value)
    && (ref.stackId < 0 || ref.stackId == 1 || ref.stackId == At(inv, BedrockStackSlot(ref).value).stackId)
  }

  predicate TransferAllowed(inv: Inventory, source: SlotRef, destination: SlotRef, count: UInt8) {
    && count > 0 && Refers(inv, source) && Refers(inv, destination)
    && var from, to := BedrockStackSlot(source).value, BedrockStackSlot(destination).value;
       var item, target := At(inv, from), At(inv, to);
       && Present(item) && count <= item.count && (from.Slot? || to.Slot?)
       && if to.Cursor? then !Present(target) || (SameStack(item, target) && count == item.count)
          else if from.Cursor? then true
          else !Present(inv.cursor) && from != to && (Present(target) ==> SameStack(item, target))
  }

  predicate Allowed(inv: Inventory, action: Action) {
    match action
    case Take(source, destination, count) => TransferAllowed(inv, source, destination, count)
    case PlaceAction(source, destination, count) => TransferAllowed(inv, source, destination, count)
    case PlaceInContainer(source, destination, count) => TransferAllowed(inv, source, destination, count)
    case TakeOutContainer(source, destination, count) => TransferAllowed(inv, source, destination, count)
    case Swap(source, destination) =>
      Refers(inv, source) && Refers(inv, destination) && BedrockStackSlot(source) != BedrockStackSlot(destination)
    case Drop(source, count) =>
      && count > 0 && Refers(inv, source)
      && var item := At(inv, BedrockStackSlot(source).value); Present(item) && count <= item.count
    case MineBlock(slot, stackId) =>
      0 <= slot <= 8 && |inv.items| == 46
      && (stackId < 0 || stackId == 1 || stackId == inv.items[36 + slot].stackId)
    case Unsupported => false
  }

  lemma TransferAllowedExactly(inv: Inventory, source: SlotRef, destination: SlotRef, count: UInt8)
    requires |inv.items| == PLAYER_SLOTS
    ensures CompileTransfer(inv, source, destination, count).Some? <==> TransferAllowed(inv, source, destination, count)
  {
    ResolvedPlaceExists(inv, source);
    ResolvedPlaceExists(inv, destination);
    hide BedrockStackSlot;
  }

  // An action compiles exactly when it is allowed; the four kinds of transfer
  // are compiled alike.
  lemma AllowedExactly(inv: Inventory, action: Action)
    requires |inv.items| == PLAYER_SLOTS
    ensures Compile(inv, action).Some? <==> Allowed(inv, action)
    ensures action.Take? || action.PlaceAction? || action.PlaceInContainer? || action.TakeOutContainer? ==>
              Compile(inv, action) == Compile(inv, Take(action.source, action.destination, action.count))
  {
    if action.MineBlock? {
      hide BedrockStackSlot;
    } else if action.Drop? {
      ResolvedPlaceExists(inv, action.source);
      hide BedrockStackSlot;
    } else if action.Swap? {
      ResolvedPlaceExists(inv, action.source);
      ResolvedPlaceExists(inv, action.destination);
      hide BedrockStackSlot;
    } else if !action.Unsupported? {
      TransferAllowedExactly(inv, action.source, action.destination, action.count);
      hide CompileTransfer, TransferAllowed;
    }
  }

  // How many clicks an allowed action takes.
  lemma ProgramLengths(inv: Inventory, source: SlotRef, destination: SlotRef, count: UInt8)
    requires |inv.items| == PLAYER_SLOTS
    ensures var program := CompileTransfer(inv, source, destination, count);
            program.Some? ==>
              var from, to := BedrockStackSlot(source).value, BedrockStackSlot(destination).value;
              && HasPlace(inv, from)
              && var held := At(inv, from).count;
                 |program.value|
                 == if from.Cursor? then (if count == held then 1 else count)
                    else if to.Cursor? then (if count == held || count == held - held / 2 then 1 else 1 + held - count)
                    else if count == held || count == held - held / 2 then 2 else count + 2
    ensures var program := CompileSwap(inv, source, destination);
            program.Some? ==>
              |program.value| == if BedrockStackSlot(source).value.Slot? && BedrockStackSlot(destination).value.Slot?
                                    && !destination.container.HotBar? then 3 else 1
    ensures var program := CompileDrop(inv, source, count);
            program.Some? ==>
              && HasPlace(inv, BedrockStackSlot(source).value)
              && |program.value| == if count == At(inv, BedrockStackSlot(source).value).count then 1 else count
  {
    ResolvedPlaceExists(inv, source);
    ResolvedPlaceExists(inv, destination);
    hide BedrockStackSlot;
  }

  // ----- requests ----------------------------------------------------------

  // The inventory when the i-th action is reached.
  function Before(encodes: Kind -> bool, s: Session, actions: seq<Action>, i: nat): (inv: Inventory)
    requires |s.inv.items| == PLAYER_SLOTS && i <= |actions|
    ensures |inv.items| == PLAYER_SLOTS
  {
    ExecuteAllReports(encodes, s, actions[..i]);
    ExecuteAll(encodes, s, actions[..i]).session.inv
  }

  lemma {:induction false} AllRun(encodes: Kind -> bool, s: Session, actions: seq<Action>)
    requires |s.inv.items| == PLAYER_SLOTS && AllEncode(encodes, s.inv)
    ensures ExecuteAll(encodes, s, actions).ok
            <==> forall i | 0 <= i < |actions| :: Allowed(Before(encodes, s, actions, i), actions[i])
    decreases |actions|
  {
    hide AllEncode, Allowed, Execute, Compile;
    if actions != [] {
      AllowedExactly(s.inv, actions[0]);
      AcceptedIffCompiled(encodes, s, actions[0]);
      assert actions[..0] == [] && Before(encodes, s, actions, 0) == s.inv;
      var first := Execute(encodes, s, actions[0]);
      ExecutedWhenCompiled(encodes, s, actions[0]);
      if first.ok {
        ExecuteKeepsSlots(encodes, s, actions[0]);
        AllRun(encodes, first.session, actions[1..]);
        forall i | 0 <= i < |actions[1..]|
          ensures Before(encodes, s, actions, i + 1) == Before(encodes, first.session, actions[1..], i)
        {
          assert actions[..i + 1][0] == actions[0] && actions[..i + 1][1..] == actions[1..][..i];
        }
        assert forall i | 0 <= i < |actions[1..]| :: actions[1..][i] == actions[i + 1];
        assert forall i | 1 <= i < |actions| :: actions[i] == actions[1..][i - 1]
                 && Before(encodes, s, actions, i) == Before(encodes, first.session, actions[1..], i - 1);
      }
    }
  }

  lemma ExecutedWhenCompiled(encodes: Kind -> bool, s: Session, action: Action)
    requires |s.inv.items| == PLAYER_SLOTS
    ensures Compile(s.inv, action).None? ==> Execute(encodes, s, action) == RunResult(s, false, {})
  {
    hide Compile;
  }

  // While every stack can be encoded, a request is accepted if and only if it
  // has actions and each of them is allowed in the inventory that it meets.
  lemma AcceptedExactly(encodes: Kind -> bool, s: Session, actions: seq<Action>)
    requires |s.inv.items| == PLAYER_SLOTS && AllEncode(encodes, s.inv)
    ensures Answer(encodes, s, actions).1.Accepted?
            <==> actions != []
                 && forall i | 0 <= i < |actions| :: Allowed(Before(encodes, s, actions, i), actions[i])
  {
    hide AllEncode, Allowed, ExecuteAll, Before;
    AllRun(encodes, s, actions);
  }

  // ----- server updates ----------------------------------------------------

  // What the server shows in a place: the kind and the count of a known stack
  // that is present, or nothing.
  predicate Shows(item: Item, stack: ServerStack) {
    if stack.Known? && stack.count > 0 then item.kind == stack.kind && item.count == stack.count
    else item == Item(Kind(0, 0), 0, 0)
  }

  lemma {:induction false} DecodedStacksShow(stacks: seq<ServerStack>, next: Int32)
    ensures forall i | 0 <= i < |stacks| :: Shows(DecodeStacks(stacks, next).0[i], stacks[i])
  {
    if stacks != [] {
      var (item, after) := DecodeStack(stacks[0], next);
      DecodedStacksShow(stacks[1..], after);
    }
  }

  // A content update puts the server's stacks into the slots of the same
  // numbers, nothing into slots that it does not reach, and its carried stack
  // on the cursor.
  lemma ContentsExact(encodes: Kind -> bool, s: Session, stateId: Int32, stacks: seq<ServerStack>, carried: ServerStack)
    requires |s.inv.items| == PLAYER_SLOTS
    ensures var after := Step(encodes, s, WindowItems(stateId, stacks, carried));
            && after.stateId == stateId && |after.inv.items| == 46 && Shows(after.inv.cursor, carried)
            && forall i | 0 <= i < 46 :: Shows(after.inv.items[i], if i < |stacks| then stacks[i] else Absent)
  {
    DecodedStacksShow(stacks, s.inv.nextId);
    hide DecodeStacks;
  }

  // A slot update puts its stack on the cursor for window and slot -1, into the
  // slot for windows 0 and -2, and nowhere otherwise; a cursor update puts it on
  // the cursor. Nothing else changes but the ID counter.
  lemma UpdateExact(encodes: Kind -> bool, s: Session, windowId: Int32, stateId: Int32, slot: int, stack: ServerStack)
    requires |s.inv.items| == PLAYER_SLOTS
    ensures var after := Step(encodes, s, SetSlot(windowId, stateId, slot, stack));
            if windowId == -1 && slot == -1 then
              after.inv.items == s.inv.items && Shows(after.inv.cursor, stack) && after.stateId == stateId
            else if windowId in {0, -2} && 0 <= slot < 46 then
              && |after.inv.items| == 46 && Shows(after.inv.items[slot], stack) && after.stateId == stateId
              && after.inv.cursor == s.inv.cursor
              && forall i | 0 <= i < 46 && i != slot :: after.inv.items[i] == s.inv.items[i]
            else after == s.(inv := s.inv.(nextId := after.inv.nextId))
    ensures var after := Step(encodes, s, SetCursor(stack));
            after.inv.items == s.inv.items && Shows(after.inv.cursor, stack) && after.stateId == s.stateId
  {}
}
