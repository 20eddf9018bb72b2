// The cache of block states as a map into a recency list of shared entries.
module StateCache {
  import opened Widths
  import opened JavaChunks
  import opened RecentStates

  class CacheElement {
    const position: BlockPos
    var stateID: Int32

    constructor (position: BlockPos, stateID: Int32)
      ensures this.position == position && this.stateID == stateID
    {
      this.position := position;
      this.stateID := stateID;
    }
  }

  ghost function ViewOf(order: seq<CacheElement>): (r: seq<Entry>)
    reads order
    ensures |r| == |order|
  {
    if order == [] then []
    else [Entry(order[0].position, order[0].stateID)] + ViewOf(order[1..])
  }

  // The list without the elements at the given positions.
  function DropPositions(order: seq<CacheElement>, s: set<BlockPos>): (r: seq<CacheElement>)
    ensures forall e | e in r :: e in order && e.position !in s
    ensures forall e | e in order && e.position !in s :: e in r
  {
    if order == [] then []
    else if order[0].position in s then DropPositions(order[1..], s)
    else [order[0]] + DropPositions(order[1..], s)
  }

  lemma {:induction false} ViewOfDrop(order: seq<CacheElement>, s: set<BlockPos>)
    ensures ViewOf(DropPositions(order, s)) == Excluding(ViewOf(order), s)
  {
    if order != [] {
      ViewOfDrop(order[1..], s);
      assert ViewOf(order)[1..] == ViewOf(order[1..]);
      if order[0].position !in s {
        var r := DropPositions(order, s);
        assert r[1..] == DropPositions(order[1..], s);
      }
    }
  }

  lemma {:induction false} ViewOfConcat(a: seq<CacheElement>, b: seq<CacheElement>)
    ensures ViewOf(a + b) == ViewOf(a) + ViewOf(b)
  {
    if a == [] {
      assert a + b == b;
    } else {
      assert (a + b)[1..] == a[1..] + b;
      ViewOfConcat(a[1..], b);
    }
  }

  lemma {:induction false} ViewAt(order: seq<CacheElement>, i: nat)
    requires i < |order|
    ensures ViewOf(order)[i] == Entry(order[i].position, order[i].stateID)
  {
    if i > 0 { ViewAt(order[1..], i - 1); }
  }

  class BlockStateCache {
    var values: map<BlockPos, CacheElement>
    var order: seq<CacheElement>

    // Every element is listed once and found under its position.
    ghost predicate Valid()
      reads this
    {
      && (forall e | e in order :: e.position in values && values[e.position] == e)
      && (forall p | p in values :: values[p] in order && values[p].position == p)
      && (forall i, j | 0 <= i < j < |order| :: order[i] != order[j])
      && |order| <= MAX_CACHED_STATES
    }

    ghost function Elements(): set<object>
      reads this
    {
      set e | e in order
    }

    ghost function View(): seq<Entry>
      reads this, order
    {
      ViewOf(order)
    }

    constructor ()
      ensures Valid() && View() == [] && order == []
    {
      values := map[];
      order := [];
    }

    // The map finds a position exactly when the list holds it, and with the
    // state the list has for it.
    lemma LookupAgrees(p: BlockPos)
      requires Valid()
      ensures p in values ==> StateOf(View(), p) == Some(values[p].stateID)
      ensures p !in values ==> StateOf(View(), p) == None
      ensures NoRepeats(View())
    {
      forall i, j | 0 <= i < j < |order| ensures View()[i].pos != View()[j].pos {
        ViewAt(order, i);
        ViewAt(order, j);
        assert order[i] in order && order[j] in order;
      }
      StateOfMember(View(), p);
      if p in values {
        var i :| 0 <= i < |order| && order[i] == values[p];
        ViewAt(order, i);
        assert View()[i] in View();
      } else {
        forall e | e in View() ensures e.pos != p {
          var i :| 0 <= i < |order| && View()[i] == e;
          ViewAt(order, i);
          assert order[i] in order;
        }
      }
    }

    // Moves an element of the list to its end.
    method MoveToBack(element: CacheElement)
      requires Valid() && element in order
      modifies this`order
      ensures order == DropPositions(old(order), {element.position}) + [element]
      ensures Valid()
    {
      ghost var before := order;
      order := DropPositions(order, {element.position}) + [element];
      DropOne(before, element);
    }

    lemma {:induction false} DropOne(all: seq<CacheElement>, element: CacheElement)
      requires forall i, j | 0 <= i < j < |all| :: all[i] != all[j]
      ensures var r := DropPositions(all, {element.position});
              forall i, j | 0 <= i < j < |r| :: r[i] != r[j]
      ensures |DropPositions(all, {element.position})| <= |all|
      ensures element in all ==> |DropPositions(all, {element.position})| < |all|
    {
      if all != [] {
        DropOne(all[1..], element);
        assert all == [all[0]] + all[1..];
      }
    }

    method Put(position: BlockPos, stateID: Int32)
      requires Valid()
      modifies this, Elements()
      ensures Valid()
      ensures View() == RecentStates.Put(old(View()), position, stateID)
      ensures fresh(Elements() - old(Elements()))
    {
      hide ViewOf, Excluding, StateOf;
      ghost var before := View();
      LookupAgrees(position);
      if position in values {
        Refresh(values[position], stateID);
        TouchKnownLength(before, position, StateOf(before, position).value) by { StateOfMember(before, position); }
        return;
      }
      var element := new CacheElement(position, stateID);
      StateOfMember(before, position);
      ExcludingNothing(before, {position});
      OneElement(element);
      ViewOfConcat(order, [element]);
      order := order + [element];
      values := values[position := element];
      assert View() == Touch(before, position, stateID);
      if |order| > MAX_CACHED_STATES {
        EvictOldest();
      }
    }

    lemma OneElement(element: CacheElement)
      ensures ViewOf([element]) == [Entry(element.position, element.stateID)]
    {
      assert [element][1..] == [];
    }

    // The map and the list agree, whatever their size.
    ghost predicate Linked()
      reads this
    {
      && (forall e | e in order :: e.position in values && values[e.position] == e)
      && (forall p | p in values :: values[p] in order && values[p].position == p)
      && (forall i, j | 0 <= i < j < |order| :: order[i] != order[j])
    }

    method EvictOldest()
      requires Linked() && |order| == MAX_CACHED_STATES + 1
      modifies this
      ensures Valid() && order == old(order)[1..]
      ensures View() == Trim(old(View()))
    {
      ghost var full := order;
      var oldest := order[0];
      values := values - {oldest.position};
      order := order[1..];
      assert full == [oldest] + order;
      forall p | p in values ensures values[p] in order {
        assert values[p] in full && values[p].position != oldest.position;
      }
      forall e | e in order ensures e.position in values {
        assert e in full && e != oldest;
      }
    }

    method Refresh(element: CacheElement, stateID: Int32)
      requires Valid() && element in order
      modifies this`order, element
      ensures Valid()
      ensures View() == Touch(old(View()), element.position, stateID)
      ensures Elements() <= old(Elements())
    {
      ghost var before, position := View(), element.position;
      forall i | 0 <= i < |order| { ViewAt(order, i); }
      element.stateID := stateID;
      forall i | 0 <= i < |order| { ViewAt(order, i); }
      ExcludingChanged(before, View(), position);
      ghost var changed := order;
      MoveToBack(element);
      ViewOfDrop(changed, {position});
      OneElement(element);
      ViewOfConcat(DropPositions(changed, {position}), [element]);
    }

    method Get(position: BlockPos) returns (state: Option<Int32>)
      requires Valid()
      modifies this`order
      ensures Valid()
      ensures (state, View()) == RecentStates.Get(old(View()), position)
      ensures Elements() <= old(Elements())
    {
      LookupAgrees(position);
      if position !in values { return None; }
      var element := values[position];
      MoveToBack(element);
      ViewOfDrop(old(order), {position});
      OneElement(element);
      ViewOfConcat(DropPositions(old(order), {position}), [element]);
      return Some(element.stateID);
    }

    method RemoveElement(position: BlockPos)
      requires Valid() && position in values
      modifies this
      ensures Valid()
      ensures values == old(values) - {position}
      ensures View() == Excluding(old(View()), {position})
      ensures Elements() <= old(Elements())
    {
      ghost var full := order;
      DropOne(full, values[position]);
      ViewOfDrop(full, {position});
      values := values - {position};
      order := DropPositions(order, {position});
    }

    method RemoveChunk(chunk: ChunkPos)
      requires Valid()
      modifies this
      ensures Valid()
      ensures View() == OutsideChunk(old(View()), chunk)
      ensures Elements() <= old(Elements())
    {
      hide ViewOf, Excluding, OutsideChunk, ChunkForBlock;
      ghost var before, removed := View(), {};
      ghost var all := values.Keys;
      var todo := values.Keys;
      ExcludingNothing(before, removed);
      forall e | e in before ensures e.pos in all {
        StateOfMember(before, e.pos);
        LookupAgrees(e.pos);
      }
      while todo != {}
        invariant Valid() && todo <= all && todo <= values.Keys
        invariant removed == set p | p in all - todo && ChunkForBlock(p) == chunk
        invariant View() == Excluding(before, removed)
        invariant Elements() <= old(Elements())
        decreases |todo|
      {
        ghost var member := SomeMember(todo);
        var position :| position in todo;
        todo := todo - {position};
        if ChunkForBlock(position) == chunk {
          ExcludingTwice(before, removed, {position});
          RemoveElement(position);
          removed := removed + {position};
        }
      }
      ExcludingAChunk(before, removed, chunk);
    }
  }
}
