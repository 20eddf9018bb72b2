// What a request leaves behind: there is no rollback, and these laws say
// exactly which requests change nothing.
module Rollback {
  import opened Widths
  import opened Items
  import opened Clicks
  import opened ClickLaws
  import opened ClickIds
  import opened Requests
  import opened TransferLaws
  import opened SessionLaws

  // ----- the revision ------------------------------------------------------

  // The inventory revision never goes back.
  lemma {:induction false} RevisionGrows(encodes: Kind -> bool, s: Session, clicks: seq<Click>)
    requires |s.inv.items| == PLAYER_SLOTS
    ensures SendAll(encodes, s, clicks).session.stateId >= s.stateId
    decreases |clicks|
  {
    if clicks != [] {
      hide ApplyClick;
      var first := Send(encodes, s, clicks[0]);
      if first.ok {
        SendKeepsSlots(encodes, s, clicks[0]);
        RevisionGrows(encodes, first.session, clicks[1..]);
      }
    }
  }

  lemma {:induction false} RequestRevisionGrows(encodes: Kind -> bool, s: Session, actions: seq<Action>)
    requires |s.inv.items| == PLAYER_SLOTS
    ensures ExecuteAll(encodes, s, actions).session.stateId >= s.stateId
    decreases |actions|
  {
    if actions != [] {
      hide Compile, SendAll;
      var program, first := Compile(s.inv, actions[0]), Execute(encodes, s, actions[0]);
      if program.Some? { RevisionGrows(encodes, s, program.value); }
      if first.ok {
        ExecuteKeepsSlots(encodes, s, actions[0]);
        RequestRevisionGrows(encodes, first.session, actions[1..]);
      }
    }
  }

  // ----- which requests change nothing ---------------------------------------

  predicate Sendable(encodes: Kind -> bool, inv: Inventory, click: Click)
    requires |inv.items| == PLAYER_SLOTS
  {
    var r := ApplyClick(inv, click);
    r.Applied? && Encodable(encodes, r.changed, r.inv.cursor)
  }

  // The request stops before a click is sent or a stack ID is used: at an
  // action that does not compile or at a first click that has no Java form,
  // with only mined blocks before it.
  predicate StopsUnsent(encodes: Kind -> bool, inv: Inventory, actions: seq<Action>)
    requires |inv.items| == PLAYER_SLOTS
  {
    actions == []
    || match Compile(inv, actions[0])
       case None => true
       case Some(clicks) =>
         if clicks == [] then StopsUnsent(encodes, inv, actions[1..])
         else !Sendable(encodes, inv, clicks[0]) && IdsUsed(inv, clicks[0]) == 0
  }

  // A program's first click decides whether it changes the session.
  lemma ProgramKeepsSession(encodes: Kind -> bool, s: Session, clicks: seq<Click>)
    requires |s.inv.items| == PLAYER_SLOTS && clicks != []
    ensures var r := SendAll(encodes, s, clicks);
            var kept := !Sendable(encodes, s.inv, clicks[0]) && IdsUsed(s.inv, clicks[0]) == 0;
            && (kept ==> r.session == s && !r.ok)
            && (!kept && s.stateId < MAX_INT32 ==>
                  r.session.stateId > s.stateId || (!r.ok && r.session != s))
  {
    var first := Send(encodes, s, clicks[0]);
    if first.ok {
      SendKeepsSlots(encodes, s, clicks[0]);
      RevisionGrows(encodes, first.session, clicks[1..]);
    }
  }

  // A request leaves the session exactly as it was if and only if it stops
  // before anything was sent. A revision at its maximum no longer counts the
  // clicks, and one direction is left.
  lemma {:induction false} UnchangedExact(encodes: Kind -> bool, s: Session, actions: seq<Action>)
    requires |s.inv.items| == PLAYER_SLOTS
    ensures StopsUnsent(encodes, s.inv, actions) ==> Answer(encodes, s, actions).0 == s
    ensures s.stateId < MAX_INT32 ==>
              (Answer(encodes, s, actions).0 == s <==> StopsUnsent(encodes, s.inv, actions))
    decreases |actions|
  {
    if actions != [] {
      hide Compile, SendAll, Send, IdsUsed, Sendable;
      var program := Compile(s.inv, actions[0]);
      if program.Some? && program.value == [] {
        NothingToSend(encodes, s, actions);
        UnchangedExact(encodes, s, actions[1..]);
      } else if program.Some? {
        ProgramKeepsSession(encodes, s, program.value);
        var first := Execute(encodes, s, actions[0]);
        if first.ok {
          ExecuteKeepsSlots(encodes, s, actions[0]);
          RequestRevisionGrows(encodes, first.session, actions[1..]);
        }
      }
    }
  }

  lemma NothingToSend(encodes: Kind -> bool, s: Session, actions: seq<Action>)
    requires |s.inv.items| == PLAYER_SLOTS && actions != [] && Compile(s.inv, actions[0]) == Some([])
    ensures Answer(encodes, s, actions).0 == Answer(encodes, s, actions[1..]).0
  {
    hide Compile;
    assert Execute(encodes, s, actions[0]) == RunResult(s, true, {});
  }

  // ----- while every stack can be encoded ------------------------------------

  // Mined blocks that check out, up to the end or an action that does not
  // compile.
  predicate OnlyChecks(inv: Inventory, actions: seq<Action>)
    requires |inv.items| == PLAYER_SLOTS
  {
    actions == []
    || Compile(inv, actions[0]).None?
    || (actions[0].MineBlock? && OnlyChecks(inv, actions[1..]))
  }

  lemma OnlyMiningIsSilent(inv: Inventory, action: Action)
    requires |inv.items| == PLAYER_SLOTS && Compile(inv, action).Some?
    ensures Compile(inv, action).value == [] <==> action.MineBlock?
  {
    if action.Drop? {
      ResolvedPlaceExists(inv, action.source);
    } else if !action.Swap? && !action.MineBlock? {
      ResolvedPlaceExists(inv, action.source);
      ResolvedPlaceExists(inv, action.destination);
      TransferSends(inv, BedrockStackSlot(action.source).value, BedrockStackSlot(action.destination).value,
                    action.count);
      hide TransferProgram;
    }
  }

  lemma TransferSends(inv: Inventory, from: Place, to: Place, count: UInt8)
    requires HasPlace(inv, from) && HasPlace(inv, to) && count > 0
    ensures TransferProgram(inv, from, to, count) != Some([])
  {}

  lemma LegalIsSendable(encodes: Kind -> bool, s: Session, click: Click)
    requires |s.inv.items| == PLAYER_SLOTS && AllEncode(encodes, s.inv) && Legal(click)
    ensures Sendable(encodes, s.inv, click)
  {
    LegalClickIsSent(encodes, s, click);
    hide AllEncode;
  }

  lemma {:induction false} StopsUnsentIfOnlyChecks(encodes: Kind -> bool, s: Session, actions: seq<Action>)
    requires |s.inv.items| == PLAYER_SLOTS && AllEncode(encodes, s.inv)
    ensures StopsUnsent(encodes, s.inv, actions) <==> OnlyChecks(s.inv, actions)
    decreases |actions|
  {
    if actions != [] {
      hide Compile, Sendable, AllEncode, Legal, IdsUsed;
      var program := Compile(s.inv, actions[0]);
      if program.Some? {
        OnlyMiningIsSilent(s.inv, actions[0]);
        if program.value == [] {
          StopsUnsentIfOnlyChecks(encodes, s, actions[1..]);
        } else {
          CompiledIsLegal(s.inv, actions[0]);
          assert program.value[0] in program.value;
          LegalIsSendable(encodes, s, program.value[0]);
        }
      }
    }
  }

  // A rejected request has changed nothing if and only if the action that
  // rejected it had only mined blocks before it; otherwise the effect of the
  // earlier actions stays.
  lemma RejectionKeepsEarlierEffects(encodes: Kind -> bool, s: Session, actions: seq<Action>)
    requires |s.inv.items| == PLAYER_SLOTS && AllEncode(encodes, s.inv) && s.stateId < MAX_INT32
    requires Answer(encodes, s, actions).1.Rejected?
    ensures Answer(encodes, s, actions).0 == s <==> OnlyChecks(s.inv, actions)
  {
    UnchangedExact(encodes, s, actions);
    StopsUnsentIfOnlyChecks(encodes, s, actions);
  }

  // ----- concrete requests ---------------------------------------------------

  function SixStones(): Session {
    Session(Inventory(seq(PLAYER_SLOTS, _ => NO_ITEM)[9 := Item(Kind(1, 0), 6, 2)], NO_ITEM, 3), 0)
  }

  // A request rejected later keeps the effect of its earlier actions: here the
  // whole of slot 9 stays on the cursor.
  lemma RejectionDoesNotRollBack()
    ensures var take := Take(SlotRef(MainInventory, false, 9, 2), SlotRef(CursorContainer, false, 0, 0), 6);
            var (after, response) := Answer(k => true, SixStones(), [take, Unsupported]);
            response == Rejected && after.inv.cursor == SixStones().inv.items[9] && Empty(after.inv.items[9])
  {
    var s := SixStones();
    var take := Take(SlotRef(MainInventory, false, 9, 2), SlotRef(CursorContainer, false, 0, 0), 6);
    var actions := [take, Unsupported];
    var clicks := [Left(9)];
    assert Compile(s.inv, take) == Some(clicks);
    var first := Send(k => true, s, clicks[0]);
    assert clicks[1..] == [];
    assert SendAll(k => true, s, clicks).session == first.session;
    assert actions[1..] == [Unsupported];
    assert ExecuteAll(k => true, first.session, [Unsupported]) == RunResult(first.session, false, {});
  }

  // At the largest revision three clicks on empty slots pass unnoticed.
  lemma SaturatedRevisionHidesClicks()
    ensures var swap := Swap(SlotRef(MainInventory, false, 9, 0), SlotRef(MainInventory, false, 10, 0));
            var s := Session(NewSession().inv, MAX_INT32);
            Answer(k => true, s, [swap, Unsupported]) == (s, Rejected)
            && !StopsUnsent(k => true, s.inv, [swap, Unsupported])
  {
    var swap := Swap(SlotRef(MainInventory, false, 9, 0), SlotRef(MainInventory, false, 10, 0));
    var s := Session(NewSession().inv, MAX_INT32);
    var clicks := [Left(9), Left(10), Left(9)];
    assert Compile(s.inv, swap) == Some(clicks);
    assert s.inv.items[9 := NO_ITEM] == s.inv.items && s.inv.items[10 := NO_ITEM] == s.inv.items;
    assert Send(k => true, s, Left(9)) == SendResult(s, true, map[]);
    assert Send(k => true, s, Left(10)) == SendResult(s, true, map[]);
    assert clicks[1..] == [Left(10), Left(9)] && clicks[1..][1..] == [Left(9)] && [Left(9)][1..] == [];
    assert SendAll(k => true, s, [Left(9)]).session == s;
    assert SendAll(k => true, s, [Left(10), Left(9)]).session == s;
    assert [swap, Unsupported][1..] == [Unsupported];
    assert ExecuteAll(k => true, s, [Unsupported]) == RunResult(s, false, {});
  }
}
