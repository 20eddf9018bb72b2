// Interned string lists: the command enums of a packet. Lists are found by a
// key that spells out every length.
module EnumTables {

  const DIGITS := "0123456789"

  function Decimal(n: nat): (s: string)
    ensures |s| > 0
  {
    if n < 10 then [DIGITS[n]] else Decimal(n / 10) + [DIGITS[n % 10]]
  }

  function DigitValue(c: char): nat {
    if c == '1' then 1 else if c == '2' then 2 else if c == '3' then 3 else if c == '4' then 4
    else if c == '5' then 5 else if c == '6' then 6 else if c == '7' then 7 else if c == '8' then 8
    else if c == '9' then 9 else 0
  }

  function DecimalValue(s: string): nat {
    if s == "" then 0 else 10 * DecimalValue(s[..|s| - 1]) + DigitValue(s[|s| - 1])
  }

  lemma {:induction false} DecimalRoundTrip(n: nat)
    ensures DecimalValue(Decimal(n)) == n
    ensures forall c | c in Decimal(n) :: c in DIGITS
  {
    if n < 10 {
      assert Decimal(n)[..0] == "";
    } else {
      DecimalRoundTrip(n / 10);
      assert Decimal(n)[..|Decimal(n)| - 1] == Decimal(n / 10);
    }
  }

  function Part(value: string): string {
    Decimal(|value|) + ":" + value + ";"
  }

  function KeyOf(values: seq<string>): string {
    if values == [] then "" else Part(values[0]) + KeyOf(values[1..])
  }

  lemma {:induction false} KeyOfAppend(values: seq<string>, value: string)
    ensures KeyOf(values + [value]) == KeyOf(values) + Part(value)
  {
    if values == [] {
      assert values + [value] == [value] && KeyOf([value][1..]) == "";
    } else {
      assert (values + [value])[1..] == values[1..] + [value];
      KeyOfAppend(values[1..], value);
    }
  }

  // A colon cannot lie within leading digits.
  lemma ColonAfterDigits(a: string, x: string, b: string, y: string)
    requires a + ":" + x == b + ":" + y
    requires forall c | c in b :: c in DIGITS
    ensures |b| <= |a|
  {
    var s := a + ":" + x;
    assert s[|a|] == ':';
    forall i | 0 <= i < |b| ensures s[i] != ':' {
      assert s[i] == b[i] && b[i] in b;
    }
  }

  // Two texts that start with digits up to a colon agree on both parts.
  lemma SplitAtColon(a: string, x: string, b: string, y: string)
    requires a + ":" + x == b + ":" + y
    requires forall c | c in a :: c in DIGITS
    requires forall c | c in b :: c in DIGITS
    ensures a == b && x == y
  {
    ColonAfterDigits(a, x, b, y);
    ColonAfterDigits(b, y, a, x);
    var s := a + ":" + x;
    assert a == s[..|a|] && b == s[..|b|];
    assert x == s[|a| + 1..] && y == s[|b| + 1..];
  }

  // Two texts of the same first length agree on both parts.
  lemma SplitAtSemicolon(a: string, x: string, b: string, y: string)
    requires a + ";" + x == b + ";" + y && |a| == |b|
    ensures a == b && x == y
  {
    var s := a + ";" + x;
    assert a == s[..|a|] && b == s[..|b|];
    assert x == s[|a| + 1..] && y == s[|b| + 1..];
  }

  lemma PartsSplit(a: string, x: string, b: string, y: string)
    requires Part(a) + x == Part(b) + y
    ensures a == b && x == y
  {
    DecimalRoundTrip(|a|);
    DecimalRoundTrip(|b|);
    hide Decimal, DecimalValue;
    assert Part(a) + x == Decimal(|a|) + ":" + (a + ";" + x);
    assert Part(b) + y == Decimal(|b|) + ":" + (b + ";" + y);
    SplitAtColon(Decimal(|a|), a + ";" + x, Decimal(|b|), b + ";" + y);
    SplitAtSemicolon(a, x, b, y);
  }

  // The key determines the list.
  lemma {:induction false} KeyIsInjective(a: seq<string>, b: seq<string>)
    requires KeyOf(a) == KeyOf(b)
    ensures a == b
  {
    if a != [] && b != [] {
      PartsSplit(a[0], KeyOf(a[1..]), b[0], KeyOf(b[1..]));
      KeyIsInjective(a[1..], b[1..]);
      assert a == [a[0]] + a[1..] && b == [b[0]] + b[1..];
    }
  }

  // The list that an enum denotes.
  function Denotes(enumValues: seq<string>, indices: seq<nat>): seq<string>
    requires forall i | 0 <= i < |indices| :: indices[i] < |enumValues|
  {
    seq(|indices|, i requires 0 <= i < |indices| => enumValues[indices[i]])
  }

  predicate AllInRange(enums: seq<seq<nat>>, size: nat) {
    forall e, i | 0 <= e < |enums| && 0 <= i < |enums[e]| :: enums[e][i] < size
  }

  function ListsOf(enumValues: seq<string>, enums: seq<seq<nat>>): (r: seq<seq<string>>)
    requires AllInRange(enums, |enumValues|)
    ensures |r| == |enums|
  {
    seq(|enums|, e requires 0 <= e < |enums| => Denotes(enumValues, enums[e]))
  }

  // Values added at the end change no list; a new enum adds its own.
  lemma ListsGrow(enumValues: seq<string>, more: seq<string>, enums: seq<seq<nat>>, indices: seq<nat>)
    requires enumValues <= more && AllInRange(enums, |enumValues|)
    requires forall i | 0 <= i < |indices| :: indices[i] < |more|
    ensures AllInRange(enums + [indices], |more|)
    ensures ListsOf(more, enums + [indices]) == ListsOf(enumValues, enums) + [Denotes(more, indices)]
  {
    forall e | 0 <= e < |enums| ensures Denotes(more, enums[e]) == Denotes(enumValues, enums[e]) {}
  }

  // Every list is found by its key, and nothing else is.
  ghost predicate IndexesLists(enumIndexes: map<string, nat>, lists: seq<seq<string>>) {
    && (forall key | key in enumIndexes :: enumIndexes[key] < |lists| && key == KeyOf(lists[enumIndexes[key]]))
    && (forall e | 0 <= e < |lists| :: KeyOf(lists[e]) in enumIndexes && enumIndexes[KeyOf(lists[e])] == e)
  }

  method BuildKey(values: seq<string>) returns (key: string)
    ensures key == KeyOf(values)
  {
    key := "";
    for i := 0 to |values|
      invariant key == KeyOf(values[..i])
    {
      KeyOfAppend(values[..i], values[i]);
      assert values[..i + 1] == values[..i] + [values[i]];
      key := key + (Decimal(|values[i]|) + ":" + values[i] + ";");
    }
    assert values[..|values|] == values;
  }

  class EnumTable {
    var enumValues: seq<string>
    var enums: seq<seq<nat>>
    var enumIndexes: map<string, nat>

    ghost function Lists(): (r: seq<seq<string>>)
      reads this
      requires AllInRange(enums, |enumValues|)
      ensures |r| == |enums|
    {
      ListsOf(enumValues, enums)
    }

    ghost predicate Valid()
      reads this
    {
      AllInRange(enums, |enumValues|) && IndexesLists(enumIndexes, Lists())
    }

    constructor ()
      ensures Valid() && Lists() == []
    {
      enumValues := [];
      enums := [];
      enumIndexes := map[];
    }

    // Different enums denote different lists.
    lemma ListsAreDistinct()
      requires Valid()
      ensures forall d, e | 0 <= d < e < |enums| :: Lists()[d] != Lists()[e]
    {}

    // A new enum: its values are added at the end of the table's values.
    method AppendValues(values: seq<string>) returns (valueIndices: seq<nat>)
      modifies this`enumValues
      ensures old(enumValues) <= enumValues
      ensures (forall i | 0 <= i < |valueIndices| :: valueIndices[i] < |enumValues|)
              && Denotes(enumValues, valueIndices) == values
    {
      valueIndices := [];
      ghost var before := enumValues;
      for i := 0 to |values|
        invariant enumValues == before + values[..i] && |valueIndices| == i
        invariant forall k | 0 <= k < i :: valueIndices[k] == |before| + k
      {
        valueIndices := valueIndices + [|enumValues|];
        enumValues := enumValues + [values[i]];
      }
    }

    // Interning a list gives an index that denotes it. An old list keeps its
    // index and the table; a new one is added at the end, and every enum
    // handed out before still denotes what it did.
    method AddEnum(values: seq<string>) returns (index: nat)
      requires Valid()
      modifies this
      ensures Valid()
      ensures index < |Lists()| && Lists()[index] == values
      ensures Lists() == if values in old(Lists()) then old(Lists()) else old(Lists()) + [values]
    {
      var key := BuildKey(values);
      if key in enumIndexes {
        KeyIsInjective(Lists()[enumIndexes[key]], values);
        return enumIndexes[key];
      }
      assert values !in Lists();
      hide ListsOf, Denotes, KeyOf, AllInRange;
      index := |enums|;
      var valueIndices := AppendValues(values);
      ListsGrow(old(enumValues), enumValues, enums, valueIndices);
      enums := enums + [valueIndices];
      enumIndexes := enumIndexes[key := index];
    }
  }
}
