// The bounded cache of recently seen block states, as a list from the least to
// the most recently touched entry, and the same list without the bound.
module RecentStates {
  import opened Widths
  import opened JavaChunks

  const MAX_CACHED_STATES := 32768

  datatype Entry = Entry(pos: BlockPos, state: Int32)

  function Excluding(r: seq<Entry>, s: set<BlockPos>): seq<Entry> {
    if r == [] then []
    else if r[0].pos in s then Excluding(r[1..], s)
    else [r[0]] + Excluding(r[1..], s)
  }

  function OutsideChunk(r: seq<Entry>, c: ChunkPos): seq<Entry> {
    if r == [] then []
    else if ChunkForBlock(r[0].pos) == c then OutsideChunk(r[1..], c)
    else [r[0]] + OutsideChunk(r[1..], c)
  }

  function StateOf(r: seq<Entry>, p: BlockPos): Option<Int32> {
    if r == [] then None
    else if r[0].pos == p then Some(r[0].state)
    else StateOf(r[1..], p)
  }

  function Touch(r: seq<Entry>, p: BlockPos, state: Int32): seq<Entry> {
    Excluding(r, {p}) + [Entry(p, state)]
  }

  function Trim(r: seq<Entry>): seq<Entry> {
    if |r| > MAX_CACHED_STATES then r[|r| - MAX_CACHED_STATES..] else r
  }

  function Put(r: seq<Entry>, p: BlockPos, state: Int32): seq<Entry> {
    Trim(Touch(r, p, state))
  }

  // A lookup that finds the position also touches it.
  function Get(r: seq<Entry>, p: BlockPos): (Option<Int32>, seq<Entry>) {
    match StateOf(r, p)
    case None => (None, r)
    case Some(state) => (Some(state), Touch(r, p, state))
  }

  predicate NoRepeats(r: seq<Entry>) {
    forall i, j | 0 <= i < j < |r| :: r[i].pos != r[j].pos
  }

  // ----- facts about filtering ---------------------------------------------

  lemma {:induction false} ExcludingConcat(a: seq<Entry>, b: seq<Entry>, s: set<BlockPos>)
    ensures Excluding(a + b, s) == Excluding(a, s) + Excluding(b, s)
  {
    if a == [] {
      assert a + b == b;
    } else {
      assert (a + b)[1..] == a[1..] + b;
      ExcludingConcat(a[1..], b, s);
    }
  }

  lemma {:induction false} OutsideConcat(a: seq<Entry>, b: seq<Entry>, c: ChunkPos)
    ensures OutsideChunk(a + b, c) == OutsideChunk(a, c) + OutsideChunk(b, c)
  {
    if a == [] {
      assert a + b == b;
    } else {
      assert (a + b)[1..] == a[1..] + b;
      OutsideConcat(a[1..], b, c);
    }
  }

  // Filtering keeps exactly the other entries.
  lemma {:induction false} ExcludingMembers(r: seq<Entry>, s: set<BlockPos>)
    ensures forall e :: e in Excluding(r, s) <==> e in r && e.pos !in s
    ensures NoRepeats(r) ==> NoRepeats(Excluding(r, s))
  {
    if r != [] {
      ExcludingMembers(r[1..], s);
      assert r == [r[0]] + r[1..];
      if NoRepeats(r) {
        assert forall e | e in Excluding(r[1..], s) :: e.pos != r[0].pos;
      }
    }
  }

  lemma {:induction false} OutsideMembers(r: seq<Entry>, c: ChunkPos)
    ensures forall e :: e in OutsideChunk(r, c) <==> e in r && ChunkForBlock(e.pos) != c
    ensures NoRepeats(r) ==> NoRepeats(OutsideChunk(r, c))
  {
    if r != [] {
      OutsideMembers(r[1..], c);
      assert r == [r[0]] + r[1..];
      if NoRepeats(r) {
        assert forall e | e in OutsideChunk(r[1..], c) :: e.pos != r[0].pos;
      }
    }
  }

  lemma {:induction false} ExcludingNothing(r: seq<Entry>, s: set<BlockPos>)
    requires forall e | e in r :: e.pos !in s
    ensures Excluding(r, s) == r
  {
    if r != [] {
      assert r[0] in r;
      ExcludingNothing(r[1..], s);
    }
  }

  // Only the entry at p may have changed.
  lemma {:induction false} ExcludingChanged(r: seq<Entry>, changed: seq<Entry>, p: BlockPos)
    requires |r| == |changed|
    requires forall i | 0 <= i < |r| :: changed[i].pos == r[i].pos && (r[i].pos != p ==> changed[i] == r[i])
    ensures Excluding(changed, {p}) == Excluding(r, {p})
  {
    if r != [] { ExcludingChanged(r[1..], changed[1..], p); }
  }

  lemma {:induction false} ExcludingTwice(r: seq<Entry>, s: set<BlockPos>, t: set<BlockPos>)
    ensures Excluding(Excluding(r, s), t) == Excluding(r, s + t)
  {
    if r != [] { ExcludingTwice(r[1..], s, t); }
  }

  lemma {:induction false} ExcludingAChunk(r: seq<Entry>, s: set<BlockPos>, c: ChunkPos)
    requires forall e | e in r :: e.pos in s <==> ChunkForBlock(e.pos) == c
    ensures Excluding(r, s) == OutsideChunk(r, c)
  {
    if r != [] {
      assert r[0] in r;
      ExcludingAChunk(r[1..], s, c);
    }
  }

  lemma {:induction false} StateOfMember(r: seq<Entry>, p: BlockPos)
    ensures StateOf(r, p).Some? ==> Entry(p, StateOf(r, p).value) in r
    ensures StateOf(r, p).None? ==> forall e | e in r :: e.pos != p
    ensures NoRepeats(r) ==> forall e | e in r && e.pos == p :: StateOf(r, p) == Some(e.state)
  {
    if r != [] {
      StateOfMember(r[1..], p);
      assert r == [r[0]] + r[1..];
    }
  }

  // ----- the bounded list is the recent end of the unbounded one --------------

  predicate RecentEnd(bounded: seq<Entry>, unbounded: seq<Entry>) {
    |bounded| <= |unbounded| && unbounded[|unbounded| - |bounded|..] == bounded
  }

  lemma RecentEndSplit(bounded: seq<Entry>, unbounded: seq<Entry>) returns (older: seq<Entry>)
    requires RecentEnd(bounded, unbounded)
    ensures unbounded == older + bounded
  {
    older := unbounded[..|unbounded| - |bounded|];
  }

  lemma TouchKeepsRecentEnd(bounded: seq<Entry>, unbounded: seq<Entry>, p: BlockPos, state: Int32)
    requires RecentEnd(bounded, unbounded)
    ensures RecentEnd(Touch(bounded, p, state), Touch(unbounded, p, state))
  {
    var older := RecentEndSplit(bounded, unbounded);
    ExcludingConcat(older, bounded, {p});
    assert Touch(unbounded, p, state) == Excluding(older, {p}) + Touch(bounded, p, state);
  }

  lemma TrimKeepsRecentEnd(bounded: seq<Entry>, unbounded: seq<Entry>)
    requires RecentEnd(bounded, unbounded)
    ensures RecentEnd(Trim(bounded), unbounded)
  {}

  lemma RemovalKeepsRecentEnd(bounded: seq<Entry>, unbounded: seq<Entry>, c: ChunkPos)
    requires RecentEnd(bounded, unbounded)
    ensures RecentEnd(OutsideChunk(bounded, c), OutsideChunk(unbounded, c))
  {
    var older := RecentEndSplit(bounded, unbounded);
    OutsideConcat(older, bounded, c);
    assert OutsideChunk(unbounded, c) == OutsideChunk(older, c) + OutsideChunk(bounded, c);
  }

  datatype CacheOp = PutOp(pos: BlockPos, state: Int32) | GetOp(pos: BlockPos) | RemoveChunkOp(chunk: ChunkPos)

  function CacheStep(r: seq<Entry>, op: CacheOp): seq<Entry> {
    match op
    case PutOp(p, state) => Put(r, p, state)
    case GetOp(p) => Get(r, p).1
    case RemoveChunkOp(c) => OutsideChunk(r, c)
  }

  function CacheRun(ops: seq<CacheOp>): seq<Entry> {
    if ops == [] then [] else CacheStep(CacheRun(ops[..|ops| - 1]), ops[|ops| - 1])
  }

  // Every put and every hit of the bounded cache, without any eviction.
  function RecencyRun(ops: seq<CacheOp>): seq<Entry> {
    if ops == [] then []
    else
      var before := RecencyRun(ops[..|ops| - 1]);
      match ops[|ops| - 1]
      case PutOp(p, state) => Touch(before, p, state)
      case GetOp(p) =>
        (match StateOf(CacheRun(ops[..|ops| - 1]), p)
         case None => before
         case Some(state) => Touch(before, p, state))
      case RemoveChunkOp(c) => OutsideChunk(before, c)
  }

  // The bounded list is a legal cache and the recent end of the unbounded one.
  predicate Mirrors(bounded: seq<Entry>, unbounded: seq<Entry>) {
    NoRepeats(bounded) && |bounded| <= MAX_CACHED_STATES && NoRepeats(unbounded) && RecentEnd(bounded, unbounded)
  }

  lemma PutMirrors(bounded: seq<Entry>, unbounded: seq<Entry>, p: BlockPos, state: Int32)
    requires Mirrors(bounded, unbounded)
    ensures Mirrors(Put(bounded, p, state), Touch(unbounded, p, state))
  {
    TouchKeepsRecentEnd(bounded, unbounded, p, state);
    TrimKeepsRecentEnd(Touch(bounded, p, state), Touch(unbounded, p, state));
    TouchNoRepeats(bounded, p, state);
    TouchNoRepeats(unbounded, p, state);
    hide Touch, RecentEnd;
  }

  lemma HitMirrors(bounded: seq<Entry>, unbounded: seq<Entry>, p: BlockPos)
    requires Mirrors(bounded, unbounded) && StateOf(bounded, p).Some?
    ensures Mirrors(Touch(bounded, p, StateOf(bounded, p).value), Touch(unbounded, p, StateOf(bounded, p).value))
  {
    var state := StateOf(bounded, p).value;
    TouchKeepsRecentEnd(bounded, unbounded, p, state);
    TouchNoRepeats(bounded, p, state);
    TouchNoRepeats(unbounded, p, state);
    StateOfMember(bounded, p);
    TouchKnownLength(bounded, p, state);
    hide Touch, RecentEnd, StateOf;
  }

  lemma RemovalMirrors(bounded: seq<Entry>, unbounded: seq<Entry>, c: ChunkPos)
    requires Mirrors(bounded, unbounded)
    ensures Mirrors(OutsideChunk(bounded, c), OutsideChunk(unbounded, c))
  {
    RemovalKeepsRecentEnd(bounded, unbounded, c);
    OutsideMembers(bounded, c);
    OutsideMembers(unbounded, c);
    OutsideLength(bounded, c);
    hide OutsideChunk, RecentEnd;
  }

  // After any run the cache has no repeated position and at most 32768
  // entries, and it is the recent end of the unbounded recency list: whatever
  // was evicted had been touched less recently than everything kept.
  lemma {:induction false} EvictsLeastRecent(ops: seq<CacheOp>)
    ensures Mirrors(CacheRun(ops), RecencyRun(ops))
    ensures |CacheRun(ops)| <= 32768
  {
    if ops != [] {
      hide Mirrors, Touch, Trim, OutsideChunk, StateOf;
      var earlier := ops[..|ops| - 1];
      EvictsLeastRecent(earlier);
      match ops[|ops| - 1]
      case PutOp(p, state) => PutMirrors(CacheRun(earlier), RecencyRun(earlier), p, state);
      case GetOp(p) =>
        if StateOf(CacheRun(earlier), p).Some? { HitMirrors(CacheRun(earlier), RecencyRun(earlier), p); }
      case RemoveChunkOp(c) => RemovalMirrors(CacheRun(earlier), RecencyRun(earlier), c);
    }
  }

  lemma TouchNoRepeats(r: seq<Entry>, p: BlockPos, state: Int32)
    requires NoRepeats(r)
    ensures NoRepeats(Touch(r, p, state))
    ensures forall e :: e in Touch(r, p, state) <==> e == Entry(p, state) || (e in r && e.pos != p)
  {
    ExcludingMembers(r, {p});
    assert forall e | e in Excluding(r, {p}) :: e.pos != p;
  }

  lemma {:induction false} ExcludingLength(r: seq<Entry>, s: set<BlockPos>)
    ensures |Excluding(r, s)| <= |r|
    ensures (exists e | e in r :: e.pos in s) ==> |Excluding(r, s)| < |r|
  {
    if r != [] { ExcludingLength(r[1..], s); }
  }

  lemma {:induction false} OutsideLength(r: seq<Entry>, c: ChunkPos)
    ensures |OutsideChunk(r, c)| <= |r|
  {
    if r != [] { OutsideLength(r[1..], c); }
  }

  lemma TouchKnownLength(r: seq<Entry>, p: BlockPos, state: Int32)
    requires Entry(p, state) in r
    ensures |Touch(r, p, state)| <= |r|
  {
    ExcludingLength(r, {p});
    assert Entry(p, state).pos in {p};
  }
}
