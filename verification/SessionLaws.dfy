// Whole stack requests, their responses, the server updates that interleave
// with them, and what holds over every run of these events.
module SessionLaws {
  import opened Widths
  import opened Items
  import opened Clicks
  import opened ClickLaws
  import opened ClickIds
  import opened Requests

  // ----- responses ---------------------------------------------------------

  datatype SlotInfo = SlotInfo(slot: UInt8, hotbarSlot: UInt8, count: UInt8, stackId: Int32)

  datatype Response = Rejected | Accepted(slots: set<(Container, SlotInfo)>)

  function MakeSlotInfo(slot: UInt8, item: Item): SlotInfo {
    if Empty(item) then SlotInfo(slot, slot, 0, 0)
    else SlotInfo(slot, slot, Min(item.count, 255), item.stackId)
  }

  // The entry that reports a Java slot.
  function SlotEntry(inv: Inventory, j: int): (Container, SlotInfo)
    requires 0 <= j < |inv.items| && JavaPlayerSlot(j).Some?
  {
    var (container, slot) := JavaPlayerSlot(j).value;
    (container, MakeSlotInfo(slot, inv.items[j]))
  }

  function AcceptedResponse(inv: Inventory, affected: set<int>): Response
    requires |inv.items| == PLAYER_SLOTS
  {
    Accepted((set j | j in affected && 0 <= j < PLAYER_SLOTS && JavaPlayerSlot(j).Some? :: SlotEntry(inv, j))
             + {(CursorContainer, MakeSlotInfo(0, inv.cursor))})
  }

  function Answer(encodes: Kind -> bool, s: Session, actions: seq<Action>): (Session, Response)
    requires |s.inv.items| == PLAYER_SLOTS
  {
    ExecuteAllReports(encodes, s, actions);
    var r := ExecuteAll(encodes, s, actions);
    if actions == [] || !r.ok then (r.session, Rejected)
    else (r.session, AcceptedResponse(r.session.inv, r.affected))
  }

  lemma {:induction false} ExecuteAllReports(encodes: Kind -> bool, s: Session, actions: seq<Action>)
    requires |s.inv.items| == PLAYER_SLOTS
    ensures var r := ExecuteAll(encodes, s, actions);
            && |r.session.inv.items| == PLAYER_SLOTS
            && (forall i | 0 <= i < PLAYER_SLOTS && i !in r.affected :: r.session.inv.items[i] == s.inv.items[i])
            && (forall i | i in r.affected :: 0 <= i < PLAYER_SLOTS)
    decreases |actions|
  {
    if actions != [] {
      var program := Compile(s.inv, actions[0]);
      if program.Some? {
        RunReportsChanges(encodes, s, program.value);
      }
      var first := Execute(encodes, s, actions[0]);
      if first.ok {
        ExecuteAllReports(encodes, first.session, actions[1..]);
      }
    }
  }

  // Every Java slot is reported under a name that resolves back to it.
  lemma JavaSlotRoundTrip(j: int, stackId: Int32)
    ensures JavaPlayerSlot(j).Some? <==> 0 <= j < PLAYER_SLOTS
    ensures 0 <= j < PLAYER_SLOTS ==>
              BedrockStackSlot(SlotRef(JavaPlayerSlot(j).value.0, false, JavaPlayerSlot(j).value.1, stackId))
              == Some(Slot(j))
  {}

  // The place an entry of a response talks about.
  function Named(entry: (Container, SlotInfo)): Option<Place> {
    BedrockStackSlot(SlotRef(entry.0, false, entry.1.slot, 0))
  }

  // An accepted response gives, for every slot that differs from before the
  // request and for the cursor, its final count and stack ID; what it says of
  // any place is true of the final inventory; and it names no place twice.
  lemma ResponseComplete(encodes: Kind -> bool, s: Session, actions: seq<Action>)
    requires |s.inv.items| == PLAYER_SLOTS
    requires Answer(encodes, s, actions).1.Accepted?
    ensures var (after, response) := Answer(encodes, s, actions);
            && |after.inv.items| == PLAYER_SLOTS
            && (forall j | 0 <= j < PLAYER_SLOTS && after.inv.items[j] != s.inv.items[j] ::
                  exists e | e in response.slots :: Named(e) == Some(Slot(j)))
            && (exists e | e in response.slots :: Named(e) == Some(Cursor))
            && (forall e | e in response.slots ::
                  && Named(e).Some? && HasPlace(after.inv, Named(e).value)
                  && var item := At(after.inv, Named(e).value);
                     && e.1.hotbarSlot == e.1.slot
                     && e.1.count == (if Empty(item) then 0 else Min(item.count, 255))
                     && e.1.stackId == (if Empty(item) then 0 else item.stackId))
            && (forall e, f | e in response.slots && f in response.slots && Named(e) == Named(f) :: e == f)
  {
    ExecuteAllReports(encodes, s, actions);
    var (after, response) := Answer(encodes, s, actions);
    var affected := ExecuteAll(encodes, s, actions).affected;
    var cursorEntry := (CursorContainer, MakeSlotInfo(0, after.inv.cursor));
    forall j | 0 <= j < PLAYER_SLOTS && after.inv.items[j] != s.inv.items[j]
      ensures exists e | e in response.slots :: Named(e) == Some(Slot(j))
    {
      JavaSlotRoundTrip(j, 0);
      assert SlotEntry(after.inv, j) in response.slots;
    }
    assert cursorEntry in response.slots && Named(cursorEntry) == Some(Cursor);
    forall e | e in response.slots
      ensures (e == cursorEntry && Named(e) == Some(Cursor))
              || exists j | 0 <= j < PLAYER_SLOTS :: Named(e) == Some(Slot(j)) && e == SlotEntry(after.inv, j)
    {
      if e != cursorEntry {
        var j :| j in affected && 0 <= j < PLAYER_SLOTS && JavaPlayerSlot(j).Some? && e == SlotEntry(after.inv, j);
        JavaSlotRoundTrip(j, 0);
      }
    }
  }

  // ----- conservation over requests ----------------------------------------

  lemma TransferInWindow(inv: Inventory, from: Place, to: Place, count: UInt8)
    requires HasPlace(inv, from) && HasPlace(inv, to) && TransferProgram(inv, from, to, count).Some?
    ensures forall c | c in TransferProgram(inv, from, to, count).value :: InWindow(c)
  {}

  lemma CompiledInWindow(inv: Inventory, action: Action)
    requires |inv.items| == PLAYER_SLOTS && Compile(inv, action).Some? && !action.Drop?
    ensures forall c | c in Compile(inv, action).value :: InWindow(c)
  {
    if !action.MineBlock? {
      var from, to := BedrockStackSlot(action.source).value, BedrockStackSlot(action.destination).value;
      if !action.Swap? {
        TransferInWindow(inv, from, to, action.count);
        hide TransferProgram;
      }
    }
  }

  // A request creates no items; one without drops keeps the total of every
  // kind, whether it is accepted, rejected, or rejected half way.
  lemma {:induction false} RequestConserves(encodes: Kind -> bool, s: Session, actions: seq<Action>, kind: Kind)
    requires |s.inv.items| == PLAYER_SLOTS
    ensures Total(ExecuteAll(encodes, s, actions).session.inv, kind) <= Total(s.inv, kind)
    ensures (forall a | a in actions :: !a.Drop?) ==>
              Total(ExecuteAll(encodes, s, actions).session.inv, kind) == Total(s.inv, kind)
    decreases |actions|
  {
    if actions != [] {
      assert actions[0] in actions;
      var program := Compile(s.inv, actions[0]);
      if program.Some? {
        if !actions[0].Drop? { CompiledInWindow(s.inv, actions[0]); }
        RunConserves(encodes, s, program.value, kind);
      }
      var first := Execute(encodes, s, actions[0]);
      if first.ok {
        ExecuteKeepsSlots(encodes, s, actions[0]);
        RequestConserves(encodes, first.session, actions[1..], kind);
      }
    }
  }

  lemma {:induction false} RequestKeepsCap(encodes: Kind -> bool, s: Session, actions: seq<Action>)
    requires |s.inv.items| == PLAYER_SLOTS && Capped(s.inv)
    ensures Capped(ExecuteAll(encodes, s, actions).session.inv)
    decreases |actions|
  {
    if actions != [] {
      var program := Compile(s.inv, actions[0]);
      if program.Some? {
        RunKeepsCap(encodes, s, program.value);
      }
      var first := Execute(encodes, s, actions[0]);
      if first.ok {
        ExecuteKeepsSlots(encodes, s, actions[0]);
        RequestKeepsCap(encodes, first.session, actions[1..]);
      }
    }
  }

  // ----- server updates ----------------------------------------------------

  // A stack as the Java server sends it; an item unknown to the registry is
  // shown as absent.
  datatype ServerStack = Absent | Unknown | Known(kind: Kind, count: UInt16)

  function DecodeStack(stack: ServerStack, next: Int32): (Item, Int32) {
    if stack.Known? && stack.count > 0 then
      var (id, after) := AllocateServerId(next);
      (Item(stack.kind, stack.count, id), after)
    else (NO_ITEM, next)
  }

  function DecodeStacks(stacks: seq<ServerStack>, next: Int32): (r: (seq<Item>, Int32))
    ensures |r.0| == |stacks|
  {
    if stacks == [] then ([], next)
    else
      var (item, after) := DecodeStack(stacks[0], next);
      var (rest, last) := DecodeStacks(stacks[1..], after);
      ([item] + rest, last)
  }

  // The first 46 items, padded with absent ones.
  function FitPlayerItems(items: seq<Item>): (r: seq<Item>)
    ensures |r| == PLAYER_SLOTS
  {
    if |items| >= PLAYER_SLOTS then items[..PLAYER_SLOTS]
    else items + seq(PLAYER_SLOTS - |items|, _ => NO_ITEM)
  }

  datatype Event =
    | WindowItems(stateId: Int32, stacks: seq<ServerStack>, carried: ServerStack)
    | SetSlot(windowId: Int32, stateId: Int32, slot: int, stack: ServerStack)
    | SetCursor(stack: ServerStack)
    | OtherDecode(stack: ServerStack)
    | StackRequest(actions: seq<Action>)

  function SetContents(s: Session, stateId: Int32, items: seq<Item>, carried: Item): Session {
    Session(s.inv.(items := FitPlayerItems(items), cursor := carried), stateId)
  }

  function StoreSlot(s: Session, windowId: Int32, stateId: Int32, slot: int, item: Item): Session {
    if windowId > 0 then s
    else if windowId == -1 && slot == -1 then Session(s.inv.(cursor := item), stateId)
    else if windowId != 0 && windowId != -2 then s
    else if 0 <= slot < |s.inv.items| then Session(s.inv.(items := s.inv.items[slot := item]), stateId)
    else s
  }

  function WithNextId(s: Session, next: Int32): Session {
    s.(inv := s.inv.(nextId := next))
  }

  function Step(encodes: Kind -> bool, s: Session, event: Event): (r: Session)
    requires |s.inv.items| == PLAYER_SLOTS
    ensures |r.inv.items| == PLAYER_SLOTS
  {
    match event
    case WindowItems(stateId, stacks, carried) =>
      var (items, next) := DecodeStacks(stacks, s.inv.nextId);
      var (cursor, last) := DecodeStack(carried, next);
      SetContents(WithNextId(s, last), stateId, items, cursor)
    case SetSlot(windowId, stateId, slot, stack) =>
      var (item, next) := DecodeStack(stack, s.inv.nextId);
      StoreSlot(WithNextId(s, next), windowId, stateId, slot, item)
    case SetCursor(stack) =>
      var (item, next) := DecodeStack(stack, s.inv.nextId);
      WithNextId(s.(inv := s.inv.(cursor := item)), next)
    case OtherDecode(stack) => WithNextId(s, DecodeStack(stack, s.inv.nextId).1)
    case StackRequest(actions) =>
      ExecuteAllReports(encodes, s, actions);
      Answer(encodes, s, actions).0
  }

  // ----- stack IDs over every run ------------------------------------------

  // The stack IDs that decoding stacks uses up.
  function DecodedIds(stacks: seq<ServerStack>): nat {
    if stacks == [] then 0
    else (if stacks[0].Known? && stacks[0].count > 0 then 1 else 0) + DecodedIds(stacks[1..])
  }

  function RequestIds(encodes: Kind -> bool, s: Session, actions: seq<Action>): nat
    requires |s.inv.items| == PLAYER_SLOTS
    decreases |actions|
  {
    if actions == [] || Compile(s.inv, actions[0]).None? then 0
    else
      var first := Execute(encodes, s, actions[0]);
      ExecuteKeepsSlots(encodes, s, actions[0]);
      RunIdsUsed(encodes, s, Compile(s.inv, actions[0]).value)
      + if first.ok then RequestIds(encodes, first.session, actions[1..]) else 0
  }

  function EventIds(encodes: Kind -> bool, s: Session, event: Event): nat
    requires |s.inv.items| == PLAYER_SLOTS
  {
    match event
    case WindowItems(_, stacks, carried) => DecodedIds(stacks) + DecodedIds([carried])
    case SetSlot(_, _, _, stack) => DecodedIds([stack])
    case SetCursor(stack) => DecodedIds([stack])
    case OtherDecode(stack) => DecodedIds([stack])
    case StackRequest(actions) => RequestIds(encodes, s, actions)
  }

  lemma {:induction false} DecodedIdsAreFresh(stacks: seq<ServerStack>, next: Int32)
    requires 1 <= next && next + DecodedIds(stacks) <= MAX_INT32
    ensures var (items, last) := DecodeStacks(stacks, next);
            && last == next + DecodedIds(stacks)
            && (forall i | 0 <= i < |items| && !Empty(items[i]) :: next <= items[i].stackId < last)
            && (forall i, j | 0 <= i < j < |items| && !Empty(items[i]) && !Empty(items[j]) ::
                  items[i].stackId != items[j].stackId)
  {
    if stacks != [] {
      DecodedIdsAreFresh(stacks[1..], DecodeStack(stacks[0], next).1);
    }
  }

  lemma {:induction false} RequestKeepsIds(encodes: Kind -> bool, s: Session, actions: seq<Action>)
    requires |s.inv.items| == PLAYER_SLOTS && IdsSound(s.inv)
    requires Peak(s.inv.nextId) + RequestIds(encodes, s, actions) <= MAX_INT32
    ensures var after := ExecuteAll(encodes, s, actions).session.inv;
            IdsSound(after) && Peak(after.nextId) == Peak(s.inv.nextId) + RequestIds(encodes, s, actions)
    decreases |actions|
  {
    if actions != [] {
      var program := Compile(s.inv, actions[0]);
      if program.Some? {
        RunKeepsIds(encodes, s, program.value);
      }
      var first := Execute(encodes, s, actions[0]);
      if first.ok {
        ExecuteKeepsSlots(encodes, s, actions[0]);
        RequestKeepsIds(encodes, first.session, actions[1..]);
      }
    }
  }

  lemma ReplacedKeepsIds(inv: Inventory, p: Place, item: Item, next: Int32)
    requires IdsSound(inv) && HasPlace(inv, p) && inv.nextId <= next
    requires Empty(item) || inv.nextId <= item.stackId < next
    ensures IdsSound(if p.Cursor? then Inventory(inv.items, item, next)
                     else Inventory(inv.items[p.index := item], inv.cursor, next))
  {
    var after := if p.Cursor? then Inventory(inv.items, item, next)
                 else Inventory(inv.items[p.index := item], inv.cursor, next);
    TracedKeepsIds(inv, after, q => q, q => q == p);
  }

  lemma ContentsKeepIds(inv: Inventory, stacks: seq<ServerStack>, carried: ServerStack)
    requires 1 <= inv.nextId && inv.nextId + DecodedIds(stacks) + DecodedIds([carried]) <= MAX_INT32
    ensures var (items, next) := DecodeStacks(stacks, inv.nextId);
            var (cursor, last) := DecodeStack(carried, next);
            IdsSound(Inventory(FitPlayerItems(items), cursor, last))
            && last == inv.nextId + DecodedIds(stacks) + DecodedIds([carried])
  {
    DecodedIdsAreFresh(stacks, inv.nextId);
    var items := DecodeStacks(stacks, inv.nextId).0;
    assert forall i | 0 <= i < PLAYER_SLOTS :: FitPlayerItems(items)[i] == if i < |items| then items[i] else NO_ITEM;
  }

  lemma UpdatesKeepIds(inv: Inventory, slot: int, stack: ServerStack)
    requires |inv.items| == PLAYER_SLOTS && IdsSound(inv) && inv.nextId + DecodedIds([stack]) <= MAX_INT32
    ensures var (item, next) := DecodeStack(stack, inv.nextId);
            && next == inv.nextId + DecodedIds([stack])
            && IdsSound(inv.(nextId := next))
            && IdsSound(Inventory(inv.items, item, next))
            && (0 <= slot < PLAYER_SLOTS ==> IdsSound(Inventory(inv.items[slot := item], inv.cursor, next)))
  {
    hide IdsSound;
    var (item, next) := DecodeStack(stack, inv.nextId);
    SoundCounter(inv);
    CounterKeepsIds(inv, next);
    ReplacedKeepsIds(inv, Cursor, item, next);
    if 0 <= slot < PLAYER_SLOTS { ReplacedKeepsIds(inv, Slot(slot), item, next); }
  }

  lemma SoundCounter(inv: Inventory)
    requires IdsSound(inv)
    ensures inv.nextId >= 1
  {}

  lemma CounterKeepsIds(inv: Inventory, next: Int32)
    requires IdsSound(inv) && inv.nextId <= next
    ensures IdsSound(inv.(nextId := next))
  {
    TracedKeepsIds(inv, inv.(nextId := next), p => p, p => false);
  }

  // Every event keeps the IDs sound if the counter has room for those that it
  // uses up.
  lemma StepKeepsIds(encodes: Kind -> bool, s: Session, event: Event)
    requires |s.inv.items| == PLAYER_SLOTS && IdsSound(s.inv)
    requires Peak(s.inv.nextId) + EventIds(encodes, s, event) <= MAX_INT32
    ensures IdsSound(Step(encodes, s, event).inv)
    ensures Peak(Step(encodes, s, event).inv.nextId) <= Peak(s.inv.nextId) + EventIds(encodes, s, event)
  {
    SoundCounter(s.inv);
    hide IdsSound, DecodedIds, RequestIds, DecodeStack, DecodeStacks, FitPlayerItems;
    match event
    case WindowItems(stateId, stacks, carried) => ContentsKeepIds(s.inv, stacks, carried);
    case SetSlot(windowId, stateId, slot, stack) => UpdatesKeepIds(s.inv, slot, stack);
    case SetCursor(stack) => UpdatesKeepIds(s.inv, 0, stack);
    case OtherDecode(stack) => UpdatesKeepIds(s.inv, 0, stack);
    case StackRequest(actions) => RequestKeepsIds(encodes, s, actions);
  }

  function RunEvents(encodes: Kind -> bool, s: Session, events: seq<Event>): (r: Session)
    requires |s.inv.items| == PLAYER_SLOTS
    ensures |r.inv.items| == PLAYER_SLOTS
    decreases |events|
  {
    if events == [] then s else RunEvents(encodes, Step(encodes, s, events[0]), events[1..])
  }

  // The stack IDs that a run uses up.
  function RunIds(encodes: Kind -> bool, s: Session, events: seq<Event>): nat
    requires |s.inv.items| == PLAYER_SLOTS
    decreases |events|
  {
    if events == [] then 0
    else EventIds(encodes, s, events[0]) + RunIds(encodes, Step(encodes, s, events[0]), events[1..])
  }

  // The session a connection starts with.
  function NewSession(): Session {
    Session(Inventory(seq(PLAYER_SLOTS, _ => NO_ITEM), NO_ITEM, 1), 0)
  }

  lemma {:induction false} RunFromSoundKeepsIds(encodes: Kind -> bool, s: Session, events: seq<Event>)
    requires |s.inv.items| == PLAYER_SLOTS && IdsSound(s.inv)
    requires Peak(s.inv.nextId) + RunIds(encodes, s, events) <= MAX_INT32
    ensures IdsSound(RunEvents(encodes, s, events).inv)
    decreases |events|
  {
    if events != [] {
      StepKeepsIds(encodes, s, events[0]);
      RunFromSoundKeepsIds(encodes, Step(encodes, s, events[0]), events[1..]);
    }
  }

  // Over every mix of server updates and requests, until the counter wraps,
  // present stacks carry pairwise different IDs below the allocator.
  lemma EveryRunKeepsIds(encodes: Kind -> bool, events: seq<Event>)
    requires RunIds(encodes, NewSession(), events) <= MAX_INT32 - 2
    ensures IdsSound(RunEvents(encodes, NewSession(), events).inv)
  {
    RunFromSoundKeepsIds(encodes, NewSession(), events);
  }

  // ----- a run to the end of the counter ---------------------------------------

  const ONE_STONE := Known(Kind(1, 0), 1)
  const NINE_STONES := Known(Kind(1, 0), 9)

  // Stones in slots 20 and 9, then decoded stacks that are kept nowhere.
  function RunToWrap(): seq<Event> {
    [OtherDecode(ONE_STONE), SetSlot(0, 0, 20, ONE_STONE), SetSlot(0, 0, 9, NINE_STONES)]
    + seq(MAX_INT32 - 4, _ => OtherDecode(ONE_STONE))
  }

  // Nine stones are split and one of the halves is placed in slot 10.
  const SPLIT_AND_PLACE := [
    Take(SlotRef(MainInventory, false, 9, -1), SlotRef(CursorContainer, false, 0, -1), 5),
    PlaceAction(SlotRef(CursorContainer, false, 0, -1), SlotRef(MainInventory, false, 10, -1), 1)]

  lemma {:induction false} RunEventsConcat(encodes: Kind -> bool, s: Session, a: seq<Event>, b: seq<Event>)
    requires |s.inv.items| == PLAYER_SLOTS
    ensures RunEvents(encodes, s, a + b) == RunEvents(encodes, RunEvents(encodes, s, a), b)
    decreases |a|
  {
    hide Step;
    if a == [] {
      assert a + b == b;
    } else {
      assert (a + b)[1..] == a[1..] + b;
      RunEventsConcat(encodes, Step(encodes, s, a[0]), a[1..], b);
    }
  }

  // Every decoded stack moves the counter by one, kept or not.
  lemma {:induction false} DecodesAdvance(encodes: Kind -> bool, s: Session, n: nat)
    requires |s.inv.items| == PLAYER_SLOTS && 1 <= s.inv.nextId && s.inv.nextId + n <= MAX_INT32
    ensures RunEvents(encodes, s, seq(n, _ => OtherDecode(ONE_STONE))) == WithNextId(s, s.inv.nextId + n)
    decreases n
  {
    var events := seq(n, _ => OtherDecode(ONE_STONE));
    if n > 0 {
      assert events[0] == OtherDecode(ONE_STONE) && events[1..] == seq(n - 1, _ => OtherDecode(ONE_STONE));
      DecodesAdvance(encodes, WithNextId(s, s.inv.nextId + 1), n - 1);
    }
  }

  // A new session can come to the last ID, with stones in slots 9 and 20.
  lemma WrapIsReached(encodes: Kind -> bool)
    ensures RunEvents(encodes, NewSession(), RunToWrap()) == Session(BeforeWrap(), 0)
  {
    var s0 := NewSession();
    var first := [OtherDecode(ONE_STONE), SetSlot(0, 0, 20, ONE_STONE), SetSlot(0, 0, 9, NINE_STONES)];
    var s1 := Step(encodes, s0, first[0]);
    var s2 := Step(encodes, s1, first[1]);
    var s3 := Step(encodes, s2, first[2]);
    assert s3.inv.items == BeforeWrap().items && s3.inv.nextId == 4;
    assert first[1..] == [first[1], first[2]] && first[1..][1..] == [first[2]] && [first[2]][1..] == [];
    assert RunEvents(encodes, s2, [first[2]]) == s3;
    assert RunEvents(encodes, s1, first[1..]) == s3;
    RunEventsConcat(encodes, s0, first, seq(MAX_INT32 - 4, _ => OtherDecode(ONE_STONE)));
    DecodesAdvance(encodes, s3, MAX_INT32 - 4);
  }

  // From there a single request puts the ID of slot 20 on slot 10 as well.
  lemma CollisionIsReached()
    ensures var after := RunEvents(k => true, NewSession(), RunToWrap() + [StackRequest(SPLIT_AND_PLACE)]).inv;
            && !Empty(after.items[10]) && !Empty(after.items[20])
            && after.items[10].stackId == after.items[20].stackId
            && !IdsSound(after)
  {
    hide BeforeWrap, RightClick, IdsSound, Answer, RunToWrap, RunEvents;
    WrapIsReached(k => true);
    RunEventsConcat(k => true, NewSession(), RunToWrap(), [StackRequest(SPLIT_AND_PLACE)]);
    RunOne(k => true, Session(BeforeWrap(), 0), StackRequest(SPLIT_AND_PLACE));
    SplitAtWrap();
    IdsCollideAfterWrap();
  }

  lemma RunOne(encodes: Kind -> bool, s: Session, event: Event)
    requires |s.inv.items| == PLAYER_SLOTS
    ensures RunEvents(encodes, s, [event]) == Step(encodes, s, event)
  {
    hide Step;
    assert [event][1..] == [];
  }

  lemma SplitAtWrap()
    ensures Answer(k => true, Session(BeforeWrap(), 0), SPLIT_AND_PLACE).0.inv
            == RightClick(RightClick(BeforeWrap(), 9), 10)
  {
    var s := Session(BeforeWrap(), 0);
    assert Compile(s.inv, SPLIT_AND_PLACE[0]) == Some([Right(9)]);
    assert [Right(9)][1..] == [] && [Right(10)][1..] == [];
    var split := Execute(k => true, s, SPLIT_AND_PLACE[0]).session;
    assert split == Send(k => true, s, Right(9)).session && split.inv == RightClick(s.inv, 9);
    assert Repeat(Right(10), 1) == [Right(10)];
    assert Compile(split.inv, SPLIT_AND_PLACE[1]) == Some([Right(10)]);
    var placed := Execute(k => true, split, SPLIT_AND_PLACE[1]).session;
    assert placed == Send(k => true, split, Right(10)).session && placed.inv == RightClick(split.inv, 10);
    assert SPLIT_AND_PLACE[1..][1..] == [] && SPLIT_AND_PLACE[1..][0] == SPLIT_AND_PLACE[1];
  }
}
