// What every click keeps: totals per kind, the stack limit and the
// exactness of the reported delta. Each law is stated for one click and
// then for every click program, including programs that stop at a failure.
module ClickLaws {
  import opened Widths
  import opened Items
  import opened Clicks

  // ----- conservation ------------------------------------------------------

  function Amount(item: Item, kind: Kind): nat {
    if !Empty(item) && item.kind == kind then item.count else 0
  }

  function Sum(items: seq<Item>, kind: Kind): nat {
    if items == [] then 0 else Amount(items[0], kind) + Sum(items[1..], kind)
  }

  function Total(inv: Inventory, kind: Kind): nat {
    Sum(inv.items, kind) + Amount(inv.cursor, kind)
  }

  lemma {:induction false} SumUpdate(items: seq<Item>, i: nat, item: Item, kind: Kind)
    requires i < |items|
    ensures Sum(items[i := item], kind) == Sum(items, kind) - Amount(items[i], kind) + Amount(item, kind)
  {
    if i == 0 {
      assert items[0 := item][1..] == items[1..];
    } else {
      assert items[i := item][1..] == items[1..][i - 1 := item];
      SumUpdate(items[1..], i - 1, item, kind);
    }
  }

  // Left, right and hotbar clicks on a slot.
  predicate InWindow(click: Click) {
    click.slot != OUTSIDE && click.actionType != ACTION_DROP
  }

  lemma LeftClickConserves(inv: Inventory, slot: nat, kind: Kind)
    requires slot < |inv.items|
    ensures Total(LeftClick(inv, slot), kind) == Total(inv, kind)
  {
    SumUpdate(inv.items, slot, LeftClick(inv, slot).items[slot], kind);
    assert LeftClick(inv, slot).items == inv.items[slot := LeftClick(inv, slot).items[slot]];
  }

  lemma RightClickConserves(inv: Inventory, slot: nat, kind: Kind)
    requires slot < |inv.items|
    ensures Total(RightClick(inv, slot), kind) == Total(inv, kind)
  {
    SumUpdate(inv.items, slot, RightClick(inv, slot).items[slot], kind);
    assert RightClick(inv, slot).items == inv.items[slot := RightClick(inv, slot).items[slot]];
  }

  lemma ClickConserves(inv: Inventory, click: Click, kind: Kind)
    requires |inv.items| == PLAYER_SLOTS && ApplyClick(inv, click).Applied?
    ensures InWindow(click) ==> Total(ApplyClick(inv, click).inv, kind) == Total(inv, kind)
    ensures Total(ApplyClick(inv, click).inv, kind) <= Total(inv, kind)
  {
    if click.slot != OUTSIDE {
      var slot := click.slot;
      if click.actionType == ACTION_CLICK {
        LeftClickConserves(inv, slot, kind);
        RightClickConserves(inv, slot, kind);
      } else if click.actionType == ACTION_TO_HOTBAR {
        var to := 36 + click.param;
        SumUpdate(inv.items, slot, inv.items[to], kind);
        SumUpdate(inv.items[slot := inv.items[to]], to, inv.items[slot], kind);
      } else {
        SumUpdate(inv.items, slot, ApplyClick(inv, click).inv.items[slot], kind);
      }
    }
  }

  // No click program creates an item of any kind, and one without drops
  // creates and destroys nothing, even if it stops half way.
  lemma {:induction false} RunConserves(encodes: Kind -> bool, s: Session, clicks: seq<Click>, kind: Kind)
    requires |s.inv.items| == PLAYER_SLOTS
    ensures (forall c | c in clicks :: InWindow(c)) ==>
              Total(SendAll(encodes, s, clicks).session.inv, kind) == Total(s.inv, kind)
    ensures Total(SendAll(encodes, s, clicks).session.inv, kind) <= Total(s.inv, kind)
    decreases |clicks|
  {
    if clicks != [] {
      assert clicks[0] in clicks;
      var first := Send(encodes, s, clicks[0]);
      if ApplyClick(s.inv, clicks[0]).Applied? {
        ClickConserves(s.inv, clicks[0], kind);
      }
      if first.ok {
        SendKeepsSlots(encodes, s, clicks[0]);
        RunConserves(encodes, first.session, clicks[1..], kind);
      }
    }
  }

  // ----- the stack limit ---------------------------------------------------

  predicate Capped(inv: Inventory) {
    inv.cursor.count <= MAX_STACK_SIZE && forall i | 0 <= i < |inv.items| :: inv.items[i].count <= MAX_STACK_SIZE
  }

  lemma {:induction false} RunKeepsCap(encodes: Kind -> bool, s: Session, clicks: seq<Click>)
    requires |s.inv.items| == PLAYER_SLOTS && Capped(s.inv)
    ensures Capped(SendAll(encodes, s, clicks).session.inv)
    decreases |clicks|
  {
    if clicks != [] {
      var first := Send(encodes, s, clicks[0]);
      if first.ok {
        SendKeepsSlots(encodes, s, clicks[0]);
        RunKeepsCap(encodes, first.session, clicks[1..]);
      }
    }
  }

  // ----- the delta ---------------------------------------------------------

  predicate IsHotbarTarget(click: Click, slot: int) {
    click.slot != OUTSIDE && click.actionType == ACTION_TO_HOTBAR && slot == 36 + click.param
  }

  // Overlaying the reported changes on the old slots gives the new slots, and
  // only slots that differ are reported, apart from the target of a hotbar
  // click, which always is.
  lemma DeltaComplete(inv: Inventory, click: Click)
    requires |inv.items| == PLAYER_SLOTS && ApplyClick(inv, click).Applied?
    ensures var r := ApplyClick(inv, click);
            && |r.inv.items| == PLAYER_SLOTS
            && (forall i | 0 <= i < PLAYER_SLOTS ::
                  r.inv.items[i] == if i in r.changed then r.changed[i] else inv.items[i])
            && (forall i | i in r.changed :: 0 <= i < PLAYER_SLOTS)
            && (forall i | 0 <= i < PLAYER_SLOTS ::
                  i in r.changed <==> r.inv.items[i] != inv.items[i] || IsHotbarTarget(click, i))
  {}

  lemma {:induction false} RunReportsChanges(encodes: Kind -> bool, s: Session, clicks: seq<Click>)
    requires |s.inv.items| == PLAYER_SLOTS
    ensures var r := SendAll(encodes, s, clicks);
            && |r.session.inv.items| == PLAYER_SLOTS
            && (forall i | 0 <= i < PLAYER_SLOTS && i !in r.affected ::
                  r.session.inv.items[i] == s.inv.items[i])
            && (forall i | i in r.affected :: 0 <= i < PLAYER_SLOTS)
    decreases |clicks|
  {
    if clicks != [] {
      var first := Send(encodes, s, clicks[0]);
      if ApplyClick(s.inv, clicks[0]).Applied? {
        DeltaComplete(s.inv, clicks[0]);
      }
      if first.ok {
        SendKeepsSlots(encodes, s, clicks[0]);
        RunReportsChanges(encodes, first.session, clicks[1..]);
      }
    }
  }
}
