// Java paletted containers: reading 64-bit packed palettes from a byte cursor.
module JavaPalette {
  import opened Widths
  import opened VarInts
  import opened PackedFields

  const MAX_COLLECTION := 4096

  // ----- the format as a function on the remaining bytes --------------------

  function ReadCount(bytes: Bytes): (r: Option<(nat, Bytes)>)
    ensures r.Some? ==> r.value.0 <= MAX_COLLECTION
  {
    match ReadVarInt(bytes)
    case None => None
    case Some((v, rest)) => if v < 0 || v > MAX_COLLECTION then None else Some((v, rest))
  }

  function ReadVarIntList(bytes: Bytes, n: nat): (r: Option<(seq<Int32>, Bytes)>)
    ensures r.Some? ==> |r.value.0| == n
  {
    if n == 0 then Some(([], bytes))
    else
      match ReadVarInt(bytes)
      case None => None
      case Some((v, rest)) =>
        match ReadVarIntList(rest, n - 1)
        case None => None
        case Some((vs, last)) => Some(([v] + vs, last))
  }

  // A big-endian number.
  function BigEndian(bytes: Bytes): nat {
    if bytes == [] then 0 else 0x100 * BigEndian(bytes[..|bytes| - 1]) + bytes[|bytes| - 1]
  }

  function ReadInt16(bytes: Bytes): Int16
    requires |bytes| >= 2
  {
    ToInt16(0x100 * (bytes[0] as int) + bytes[1] as int)
  }

  function ReadLongs(bytes: Bytes, n: nat): (r: Option<(seq<nat>, Bytes)>)
    ensures r.Some? ==> |r.value.0| == n
  {
    if n == 0 then Some(([], bytes))
    else if |bytes| < 8 then None
    else
      match ReadLongs(bytes[8..], n - 1)
      case None => None
      case Some((words, rest)) => Some(([BigEndian(bytes[..8])] + words, rest))
  }

  // The palette index, or in direct mode the value, of entry i.
  function RawEntry(words: seq<nat>, i: nat, bits: nat): nat
    requires 0 < bits <= 32 && i / (64 / bits) < |words|
  {
    Field(words[i / (64 / bits)], i % (64 / bits), bits)
  }

  lemma EntryWord(i: nat, size: nat, per: nat)
    requires i < size && per > 0
    ensures 0 <= i / per < CeilDiv(size, per)
    ensures i / per * per + i % per == i && i % per < per
  {
    QuotientIsNat(i, per);
    var q := i / per;
    assert i == q * per + i % per;
    assert (q + 1) * per <= size + per - 1 by { assert (q + 1) * per == q * per + per; }
    QuotientAtLeast(size + per - 1, per, q + 1);
  }

  lemma QuotientAtLeast(x: nat, m: nat, q: nat)
    requires m > 0 && q * m <= x
    ensures x / m >= q
  {
    var d := x / m;
    assert x == d * m + x % m;
    assert d <= q - 1 ==> d * m <= (q - 1) * m;
    assert (q - 1) * m == q * m - m;
  }

  // The values of `size` entries; no entry may lie outside the palette.
  function Values(words: seq<nat>, palette: Option<seq<Int32>>, bits: nat, size: nat): Option<seq<Int32>>
    requires 0 < bits <= 32 && |words| == CeilDiv(size, 64 / bits)
  {
    EntriesHaveWords(size, bits);
    match palette
    case None => Some(seq(size, i requires 0 <= i < size => Direct(RawEntry(words, i, bits))))
    case Some(entries) =>
      if forall i | 0 <= i < size :: RawEntry(words, i, bits) < |entries| then
        Some(seq(size, i requires 0 <= i < size => entries[RawEntry(words, i, bits)]))
      else None
  }

  lemma EntriesHaveWords(size: nat, bits: nat)
    requires 0 < bits <= 32
    ensures forall i: nat {:trigger i / (64 / bits)} | i < size :: i / (64 / bits) < CeilDiv(size, 64 / bits)
  {
    forall i: nat | i < size ensures i / (64 / bits) < CeilDiv(size, 64 / bits) {
      EntryWord(i, size, 64 / bits);
    }
  }

  // A 32-bit field read as a signed value.
  function Direct(raw: nat): Int32 {
    ToInt32(raw % WORD32)
  }

  // The data words and the values they give.
  function ReadEntries(bytes: Bytes, palette: Option<seq<Int32>>, bits: nat, size: nat): Option<(seq<Int32>, Bytes)>
    requires 0 < bits <= 32
  {
    match ReadCount(bytes)
    case None => None
    case Some((wordCount, afterCount)) =>
      if wordCount != CeilDiv(size, 64 / bits) then None
      else
        match ReadLongs(afterCount, wordCount)
        case None => None
        case Some((words, rest)) =>
          match Values(words, palette, bits, size)
          case None => None
          case Some(values) => Some((values, rest))
  }

  function ReadContainer(bytes: Bytes, size: nat): Option<(seq<Int32>, Bytes)> {
    if bytes == [] || bytes[0] > 32 then None
    else if bytes[0] == 0 then
      match ReadVarInt(bytes[1..])
      case None => None
      case Some((value, afterValue)) =>
        match ReadCount(afterValue)
        case None => None
        case Some((wordCount, rest)) =>
          if wordCount != 0 then None else Some((Constant(value, size), rest))
    else if bytes[0] <= 8 then
      match ReadCount(bytes[1..])
      case None => None
      case Some((paletteLength, afterLength)) =>
        if paletteLength == 0 then None
        else
          match ReadVarIntList(afterLength, paletteLength)
          case None => None
          case Some((palette, afterPalette)) => ReadEntries(afterPalette, Some(palette), bytes[0], size)
    else ReadEntries(bytes[1..], None, bytes[0], size)
  }

  // ----- the reader, step by step ------------------------------------------

  // A list read so far, completed by what the rest reads as.
  function Prefixed<T>(front: seq<T>, r: Option<(seq<T>, Bytes)>): Option<(seq<T>, Bytes)> {
    match r
    case None => None
    case Some((more, rest)) => Some((front + more, rest))
  }

  lemma PrefixedTwice<T>(a: seq<T>, b: seq<T>, r: Option<(seq<T>, Bytes)>)
    ensures Prefixed(a, Prefixed(b, r)) == Prefixed(a + b, r)
    ensures Prefixed([], r) == r
  {
    if r.Some? {
      assert a + (b + r.value.0) == (a + b) + r.value.0;
      assert [] + r.value.0 == r.value.0;
    }
  }

  // What has been read so far, completed by the rest of the number.
  function Completed(value: nat, weight: nat, r: Option<(nat, Bytes)>): Option<(nat, Bytes)> {
    match r
    case None => None
    case Some((high, rest)) => Some((value + high * weight, rest))
  }

  lemma CompletedStep(value: nat, low: nat, weight: nat, i: nat, bytes: Bytes)
    requires i < 4 && bytes != [] && bytes[0] >= 0x80 && low == bytes[0] % 0x80
    ensures Completed(value, weight, ReadVarUIntFrom(bytes, i))
            == Completed(value + low * weight, weight * 0x80, ReadVarUIntFrom(bytes[1..], i + 1))
  {
    var r := ReadVarUIntFrom(bytes[1..], i + 1);
    if r.Some? {
      Accumulate(value, low, r.value.0, weight);
    }
  }

  lemma Accumulate(value: nat, low: nat, high: nat, weight: nat)
    ensures value + (low + 0x80 * high) * weight == value + low * weight + high * (weight * 0x80)
  {}

  lemma ReadOneByte(bytes: Bytes, i: nat)
    requires i <= 4
    ensures bytes == [] ==> ReadVarUIntFrom(bytes, i).None?
    ensures bytes != [] && bytes[0] < 0x80 ==>
              ReadVarUIntFrom(bytes, i) == if i == 4 && bytes[0] > 0x0f then None else Some((bytes[0], bytes[1..]))
    ensures bytes != [] && bytes[0] >= 0x80 && i == 4 ==> ReadVarUIntFrom(bytes, i).None?
  {}

  lemma SevenMoreBits(value: nat, low: nat, i: nat)
    requires i <= 4 && value < Pow2(7 * i) && low < 0x80 && (i == 4 ==> low <= 0x0f)
    ensures BitOr(value, Shl32(low, 7 * i)) == value + low * Pow2(7 * i) < WORD32
    ensures value + low * Pow2(7 * i) < Pow2(7 * (i + 1))
    ensures Pow2(7 * (i + 1)) == Pow2(7 * i) * 0x80
  {
    hide BitOr, Shl32;
    Pow2Values();
    FieldAbove(value, low, 7 * i, if i == 4 then 4 else 7);
    Pow2Add(7 * i, 7);
    Pow2Monotone(7 * i + (if i == 4 then 4 else 7), 32);
    Pow2Monotone(7 * i + (if i == 4 then 4 else 7), 7 * i + 7);
  }

  class Reader {
    const bytes: Bytes
    var pos: nat

    ghost predicate Valid()
      reads this
    {
      pos <= |bytes|
    }

    ghost function Rest(): Bytes
      reads this
      requires Valid()
    {
      bytes[pos..]
    }

    constructor (bytes: Bytes)
      ensures Valid() && Rest() == bytes
    {
      this.bytes := bytes;
      pos := 0;
    }

    method Byte() returns (r: Option<UInt8>)
      requires Valid()
      modifies this
      ensures Valid()
      ensures r.None? <==> old(Rest()) == []
      ensures r.Some? ==> r.value == old(Rest())[0] && Rest() == old(Rest())[1..]
    {
      if pos == |bytes| { return None; }
      r := Some(bytes[pos]);
      pos := pos + 1;
    }

    method VarInt() returns (r: Option<Int32>)
      requires Valid()
      modifies this
      ensures Valid()
      ensures r.None? <==> ReadVarInt(old(Rest())).None?
      ensures r.Some? ==> ReadVarInt(old(Rest())) == Some((r.value, Rest()))
    {
      hide BitOr, Shl32, Pow2, ReadVarUIntFrom;
      ghost var whole := ReadVarUIntFrom(Rest(), 0);
      Pow2Values();
      var value: nat := 0;
      for i := 0 to 5
        invariant Valid()
        invariant i < 5 ==> value < Pow2(7 * i) && whole == Completed(value, Pow2(7 * i), ReadVarUIntFrom(Rest(), i))
        invariant i == 5 ==> whole.None?
      {
        ghost var here := Rest();
        ReadOneByte(here, i);
        var b := Byte();
        if b.None? { return None; }
        var low := b.value % 0x80;
        ghost var before := value;
        value := BitOr(value, Shl32(low, 7 * i));
        if i < 4 || low <= 0x0f { SevenMoreBits(before, low, i); }
        if b.value < 0x80 {
          if i == 4 && b.value > 0x0f { return None; }
          return Some(ToInt32(value));
        }
        if i < 4 { CompletedStep(before, low, Pow2(7 * i), i, here); }
      }
      return None;
    }

    method Int64() returns (r: Option<nat>)
      requires Valid()
      modifies this
      ensures Valid()
      ensures r.None? <==> |old(Rest())| < 8
      ensures r.Some? ==> r.value == BigEndian(old(Rest())[..8]) && Rest() == old(Rest())[8..]
    {
      if |bytes| - pos < 8 { return None; }
      assert bytes[pos..][..8] == bytes[pos..pos + 8];
      r := Some(BigEndian(bytes[pos..pos + 8]));
      pos := pos + 8;
    }

    method Int16() returns (r: Option<Int16>)
      requires Valid()
      modifies this
      ensures Valid()
      ensures r.None? <==> |old(Rest())| < 2
      ensures r.Some? ==> r.value == ReadInt16(old(Rest())) && Rest() == old(Rest())[2..]
    {
      if |bytes| - pos < 2 { return None; }
      r := Some(ToInt16(0x100 * (bytes[pos] as int) + bytes[pos + 1] as int));
      pos := pos + 2;
    }

    method Count() returns (r: Option<nat>)
      requires Valid()
      modifies this
      ensures Valid()
      ensures r.None? <==> ReadCount(old(Rest())).None?
      ensures r.Some? ==> ReadCount(old(Rest())) == Some((r.value, Rest()))
    {
      var value := VarInt();
      if value.None? || value.value < 0 || value.value > MAX_COLLECTION { return None; }
      return Some(value.value);
    }
  }

  // Decodes `size` values and leaves the reader after the container.
  method DecodeJavaPalettedContainer(r: Reader, size: nat) returns (result: Option<seq<Int32>>)
    requires r.Valid()
    modifies r
    ensures r.Valid()
    ensures result.None? <==> ReadContainer(old(r.Rest()), size).None?
    ensures result.Some? ==> ReadContainer(old(r.Rest()), size) == Some((result.value, r.Rest()))
  {
    hide ReadVarInt, ReadCount;
    var bitsByte := r.Byte();
    if bitsByte.None? { return None; }
    var bits := bitsByte.value;
    if bits > 32 { return None; }
    var palette: Option<seq<Int32>> := None;
    if bits == 0 {
      var value := r.VarInt();
      if value.None? { return None; }
      palette := Some([value.value]);
    } else if bits <= 8 {
      var paletteLength := r.Count();
      if paletteLength.None? || paletteLength.value == 0 { return None; }
      palette := DecodePalette(r, paletteLength.value);
      if palette.None? { return None; }
    }
    if bits == 0 {
      var wordCount := r.Count();
      if wordCount.None? || wordCount.value != 0 { return None; }
      return Some(Constant(palette.value[0], size));
    }
    result := DecodeEntries(r, palette, bits, size);
  }

  method DecodePalette(r: Reader, n: nat) returns (palette: Option<seq<Int32>>)
    requires r.Valid()
    modifies r
    ensures r.Valid()
    ensures palette.None? <==> ReadVarIntList(old(r.Rest()), n).None?
    ensures palette.Some? ==> ReadVarIntList(old(r.Rest()), n) == Some((palette.value, r.Rest()))
  {
    hide ReadVarInt;
    ghost var whole := ReadVarIntList(r.Rest(), n);
    PrefixedTwice([], [], whole);
    var entries: seq<Int32> := [];
    for i := 0 to n
      invariant r.Valid() && |entries| == i
      invariant whole == Prefixed(entries, ReadVarIntList(r.Rest(), n - i))
    {
      var value := r.VarInt();
      if value.None? { return None; }
      PrefixedTwice(entries, [value.value], ReadVarIntList(r.Rest(), n - i - 1));
      entries := entries + [value.value];
    }
    assert entries + [] == entries;
    return Some(entries);
  }

  method DecodeLongs(r: Reader, n: nat) returns (words: Option<seq<nat>>)
    requires r.Valid()
    modifies r
    ensures r.Valid()
    ensures words.None? <==> ReadLongs(old(r.Rest()), n).None?
    ensures words.Some? ==> ReadLongs(old(r.Rest()), n) == Some((words.value, r.Rest()))
  {
    hide BigEndian;
    ghost var whole := ReadLongs(r.Rest(), n);
    PrefixedTwice([], [], whole);
    var longs: seq<nat> := [];
    for i := 0 to n
      invariant r.Valid() && |longs| == i
      invariant whole == Prefixed(longs, ReadLongs(r.Rest(), n - i))
    {
      var value := r.Int64();
      if value.None? { return None; }
      PrefixedTwice(longs, [value.value], ReadLongs(r.Rest(), n - i - 1));
      longs := longs + [value.value];
    }
    assert longs + [] == longs;
    return Some(longs);
  }

  method DecodeEntries(r: Reader, palette: Option<seq<Int32>>, bits: nat, size: nat)
    returns (result: Option<seq<Int32>>)
    requires r.Valid() && 0 < bits <= 32
    modifies r
    ensures r.Valid()
    ensures result.None? <==> ReadEntries(old(r.Rest()), palette, bits, size).None?
    ensures result.Some? ==> ReadEntries(old(r.Rest()), palette, bits, size) == Some((result.value, r.Rest()))
  {
    hide ReadCount, ReadLongs, Values;
    var wordCount := r.Count();
    if wordCount.None? { return None; }
    var valuesPerWord := 64 / bits;
    var expectedWords := CeilDiv(size, valuesPerWord);
    if wordCount.value != expectedWords { return None; }
    var words := DecodeLongs(r, wordCount.value);
    if words.None? { return None; }
    result := DecodeValues(words.value, palette, bits, size);
  }

  method DecodeValues(words: seq<nat>, palette: Option<seq<Int32>>, bits: nat, size: nat)
    returns (result: Option<seq<Int32>>)
    requires 0 < bits <= 32 && |words| == CeilDiv(size, 64 / bits)
    ensures result == Values(words, palette, bits, size)
  {
    hide Field, Direct;
    EntriesHaveWords(size, bits);
    var valuesPerWord := 64 / bits;
    var values: seq<Int32> := [];
    for i := 0 to size
      invariant |values| == i
      invariant palette.None? ==> forall k | 0 <= k < i :: values[k] == Direct(RawEntry(words, k, bits))
      invariant palette.Some? ==> forall k | 0 <= k < i ::
                  RawEntry(words, k, bits) < |palette.value| && values[k] == palette.value[RawEntry(words, k, bits)]
    {
      EntryWord(i, size, valuesPerWord);
      var word := words[i / valuesPerWord];
      var slot := i % valuesPerWord;
      FieldByShift(word, slot, slot * bits, bits);
      var paletteIndex := MaskedShift(word, slot * bits, bits);
      if palette.Some? {
        assert paletteIndex == RawEntry(words, i, bits);
        if paletteIndex >= |palette.value| { return None; }
        values := values + [palette.value[paletteIndex]];
      } else {
        values := values + [Direct(paletteIndex)];
      }
    }
    ghost var expected := Values(words, palette, bits, size);
    assert expected.Some?;
    assert values == expected.value;
    result := Some(values);
  }

  // ----- what the decoder accepts ------------------------------------------

  function VarIntList(vs: seq<Int32>): Bytes {
    if vs == [] then [] else VarInt(vs[0]) + VarIntList(vs[1..])
  }

  function BigEndianBytes(n: nat, width: nat): (r: Bytes)
    ensures |r| == width
  {
    if width == 0 then [] else BigEndianBytes(n / 0x100, width - 1) + [n % 0x100]
  }

  function LongList(words: seq<UInt64>): Bytes {
    if words == [] then [] else BigEndianBytes(words[0], 8) + LongList(words[1..])
  }

  // The palettes that go with a width: one value, a table, or none.
  predicate PaletteFor(bits: nat, palette: Option<seq<Int32>>) {
    if bits == 0 then palette.Some? && |palette.value| == 1
    else if bits <= 8 then palette.Some? && 0 < |palette.value| <= MAX_COLLECTION
    else bits <= 32 && palette.None?
  }

  function PalettePart(bits: nat, palette: Option<seq<Int32>>): Bytes
    requires PaletteFor(bits, palette)
  {
    if bits == 0 then VarInt(palette.value[0])
    else if bits <= 8 then VarInt(|palette.value|) + VarIntList(palette.value)
    else []
  }

  // A container as a Java server frames it, with any number of data words.
  function Frame(bits: nat, palette: Option<seq<Int32>>, words: seq<UInt64>): Bytes
    requires PaletteFor(bits, palette) && |words| <= MAX_COLLECTION
  {
    [bits] + (PalettePart(bits, palette) + (VarInt(|words|) + LongList(words)))
  }

  lemma ReadCountInverts(n: nat, rest: Bytes)
    requires n <= MAX_COLLECTION
    ensures ReadCount(VarInt(n) + rest) == Some((n, rest))
  {
    VarIntRoundTrip(n, rest);
  }

  lemma {:induction false} ReadVarIntListInverts(vs: seq<Int32>, rest: Bytes)
    ensures ReadVarIntList(VarIntList(vs) + rest, |vs|) == Some((vs, rest))
  {
    if vs == [] {
      assert VarIntList(vs) + rest == rest;
    } else {
      hide VarInt, ReadVarInt;
      assert VarIntList(vs) + rest == VarInt(vs[0]) + (VarIntList(vs[1..]) + rest);
      VarIntRoundTrip(vs[0], VarIntList(vs[1..]) + rest);
      ReadVarIntListInverts(vs[1..], rest);
      assert [vs[0]] + vs[1..] == vs;
    }
  }

  lemma LessByOneByte(n: nat, width: nat)
    requires width > 0 && n < Pow2(8 * width)
    ensures n / 0x100 < Pow2(8 * (width - 1))
  {
    Pow2Values();
    Pow2Add(8 * (width - 1), 8);
  }

  lemma {:induction false} BigEndianInverts(n: nat, width: nat)
    requires n < Pow2(8 * width)
    ensures BigEndian(BigEndianBytes(n, width)) == n
  {
    if width == 0 {
      assert n == 0;
    } else {
      hide Pow2;
      LessByOneByte(n, width);
      BigEndianInverts(n / 0x100, width - 1);
      var bytes := BigEndianBytes(n, width);
      assert bytes[..width - 1] == BigEndianBytes(n / 0x100, width - 1);
    }
  }

  lemma {:induction false} ReadLongsInverts(words: seq<UInt64>, rest: Bytes)
    ensures ReadLongs(LongList(words) + rest, |words|) == Some((words, rest))
  {
    var bytes := LongList(words) + rest;
    if words == [] {
      assert bytes == rest;
    } else {
      hide BigEndian, BigEndianBytes;
      WordFitsLong(words[0]);
      BigEndianInverts(words[0], 8);
      assert bytes[..8] == BigEndianBytes(words[0], 8);
      assert bytes[8..] == LongList(words[1..]) + rest;
      ReadLongsInverts(words[1..], rest);
      assert [words[0]] + words[1..] == words;
    }
  }

  lemma WordFitsLong(word: UInt64)
    ensures word < Pow2(64)
  {
    Pow2Values();
    Pow2Add(32, 32);
  }

  // A framed container is decoded if and only if it has exactly the words its
  // size calls for and no index lies outside the palette; a container of width
  // zero must have no words at all.
  lemma FramedContainer(bits: nat, palette: Option<seq<Int32>>, words: seq<UInt64>, size: nat, rest: Bytes)
    requires PaletteFor(bits, palette) && |words| <= MAX_COLLECTION
    ensures ReadContainer(Frame(bits, palette, words) + rest, size)
            == if bits == 0 then
                 if words == [] then Some((Constant(palette.value[0], size), rest)) else None
               else if |words| != CeilDiv(size, 64 / bits) then None
               else
                 match Values(words, palette, bits, size)
                 case None => None
                 case Some(values) => Some((values, rest))
  {
    hide VarInt, ReadVarInt, ReadCount, LongList, VarIntList, ReadLongs, ReadVarIntList, Values;
    var bytes := Frame(bits, palette, words) + rest;
    var data := VarInt(|words|) + (LongList(words) + rest);
    assert bytes[1..] == PalettePart(bits, palette) + data;
    ReadCountInverts(|words|, LongList(words) + rest);
    ReadLongsInverts(words, rest);
    if bits == 0 {
      VarIntRoundTrip(palette.value[0], data);
      if words == [] { EmptyLongList(rest); }
    } else if bits <= 8 {
      assert bytes[1..] == VarInt(|palette.value|) + (VarIntList(palette.value) + data);
      ReadCountInverts(|palette.value|, VarIntList(palette.value) + data);
      ReadVarIntListInverts(palette.value, data);
    } else {
      assert bytes[1..] == data;
    }
  }

  lemma EmptyLongList(rest: Bytes)
    ensures LongList([]) + rest == rest
  {}

  // ----- packing is inverted -----------------------------------------------

  // The entries that the k-th word carries.
  function Stretch(indices: seq<nat>, k: nat, bits: nat): seq<nat>
    requires 0 < bits <= 32 && k < CeilDiv(|indices|, 64 / bits)
  {
    StretchInside(|indices|, k, 64 / bits);
    indices[k * (64 / bits)..Min((k + 1) * (64 / bits), |indices|)]
  }

  lemma StretchInside(size: nat, k: nat, per: nat)
    requires per > 0 && k < CeilDiv(size, per)
    ensures 0 <= k * per < size
  {
    var q := (size + per - 1) / per;
    assert q * per <= size + per - 1;
    assert (k + 1) * per <= q * per;
    assert (k + 1) * per == k * per + per;
  }

  // 64-bit words with 64/bits fields each, as a Java server packs them.
  function PackLongs(indices: seq<nat>, bits: nat): (r: seq<UInt64>)
    requires 0 < bits <= 32 && Fit(indices, bits)
    ensures |r| == CeilDiv(|indices|, 64 / bits)
  {
    seq(CeilDiv(|indices|, 64 / bits), k requires 0 <= k < CeilDiv(|indices|, 64 / bits) =>
      PackLong(indices, k, bits))
  }

  function PackLong(indices: seq<nat>, k: nat, bits: nat): UInt64
    requires 0 < bits <= 32 && Fit(indices, bits) && k < CeilDiv(|indices|, 64 / bits)
  {
    StretchFits(indices, k, bits);
    LongBound(Stretch(indices, k, bits), bits);
    Digits(Stretch(indices, k, bits), bits)
  }

  lemma FieldsInLong(n: nat, bits: nat)
    requires 0 < bits && n <= 64 / bits
    ensures n * bits <= 64
  {
    assert 64 / bits * bits <= 64;
    assert n * bits <= 64 / bits * bits;
  }

  lemma LongBound(fields: seq<nat>, bits: nat)
    requires 0 < bits <= 32 && Fit(fields, bits) && |fields| <= 64 / bits
    ensures Digits(fields, bits) < 0x1_0000_0000_0000_0000
  {
    hide Pow2, Digits;
    DigitsBound(fields, bits);
    FieldsInLong(|fields|, bits);
    Pow2Monotone(|fields| * bits, 64);
    Pow2Values();
    Pow2Add(32, 32);
  }

  lemma StretchFits(indices: seq<nat>, k: nat, bits: nat)
    requires 0 < bits <= 32 && Fit(indices, bits) && k < CeilDiv(|indices|, 64 / bits)
    ensures Fit(Stretch(indices, k, bits), bits) && |Stretch(indices, k, bits)| <= 64 / bits
  {
    hide Pow2;
    var per := 64 / bits;
    StretchInside(|indices|, k, per);
    assert (k + 1) * per == k * per + per;
  }

  lemma StretchEntry(indices: seq<nat>, bits: nat, i: nat)
    requires 0 < bits <= 32 && i < |indices|
    ensures var per := 64 / bits;
            var k := i / per;
            && 0 <= k < CeilDiv(|indices|, per)
            && i % per < |Stretch(indices, k, bits)| && Stretch(indices, k, bits)[i % per] == indices[i]
  {
    var per := 64 / bits;
    EntryWord(i, |indices|, per);
    var k := i / per;
    StretchInside(|indices|, k, per);
    assert (k + 1) * per == k * per + per;
  }

  lemma PackedEntry(indices: seq<nat>, bits: nat, i: nat)
    requires 0 < bits <= 32 && Fit(indices, bits) && i < |indices|
    ensures i / (64 / bits) < |PackLongs(indices, bits)|
    ensures RawEntry(PackLongs(indices, bits), i, bits) == indices[i]
  {
    hide Digits, Field;
    StretchEntry(indices, bits, i);
    var k, slot := i / (64 / bits), i % (64 / bits);
    hide Stretch;
    StretchFits(indices, k, bits);
    FieldOfDigits(Stretch(indices, k, bits), bits, slot);
  }

  // What the entries of a container stand for.
  function Meaning(palette: Option<seq<Int32>>, indices: seq<nat>): seq<Int32>
    requires palette.Some? ==> forall i | 0 <= i < |indices| :: indices[i] < |palette.value|
  {
    seq(|indices|, i requires 0 <= i < |indices| =>
      if palette.Some? then palette.value[indices[i]] else Direct(indices[i]))
  }

  // Whatever a server packs, in direct or indirect mode and at any width, is
  // decoded to the values it stood for, and the reader stops after it.
  lemma DecodeInvertsPacking(bits: nat, palette: Option<seq<Int32>>, indices: seq<nat>, rest: Bytes)
    requires 0 < bits && PaletteFor(bits, palette) && Fit(indices, bits)
    requires CeilDiv(|indices|, 64 / bits) <= MAX_COLLECTION
    requires palette.Some? ==> forall i | 0 <= i < |indices| :: indices[i] < |palette.value|
    ensures ReadContainer(Frame(bits, palette, PackLongs(indices, bits)) + rest, |indices|)
            == Some((Meaning(palette, indices), rest))
  {
    var words := PackLongs(indices, bits);
    FramedContainer(bits, palette, words, |indices|, rest);
    PackedValues(bits, palette, indices);
  }

  lemma PackedValues(bits: nat, palette: Option<seq<Int32>>, indices: seq<nat>)
    requires 0 < bits && PaletteFor(bits, palette) && Fit(indices, bits)
    requires palette.Some? ==> forall i | 0 <= i < |indices| :: indices[i] < |palette.value|
    ensures Values(PackLongs(indices, bits), palette, bits, |indices|) == Some(Meaning(palette, indices))
  {
    hide PackLongs, RawEntry, Direct;
    var words := PackLongs(indices, bits);
    EntriesHaveWords(|indices|, bits);
    forall i | 0 <= i < |indices| ensures i / (64 / bits) < |words| && RawEntry(words, i, bits) == indices[i] {
      PackedEntry(indices, bits, i);
    }
    var values := Values(words, palette, bits, |indices|);
    assert values.Some?;
    assert values.value == Meaning(palette, indices);
  }

  // A field outside the palette makes the decoder reject the container.
  lemma OutsidePaletteIsRejected(bits: nat, palette: seq<Int32>, indices: seq<nat>, i: nat, rest: Bytes)
    requires 0 < bits <= 8 && 0 < |palette| <= MAX_COLLECTION && Fit(indices, bits)
    requires CeilDiv(|indices|, 64 / bits) <= MAX_COLLECTION
    requires i < |indices| && indices[i] >= |palette|
    ensures ReadContainer(Frame(bits, Some(palette), PackLongs(indices, bits)) + rest, |indices|).None?
  {
    var words := PackLongs(indices, bits);
    FramedContainer(bits, Some(palette), words, |indices|, rest);
    PackedEntry(indices, bits, i);
    EntriesHaveWords(|indices|, bits);
    assert RawEntry(words, i, bits) >= |palette|;
  }

  // ----- direct mode, value by value -----------------------------------------

  // A value as the unsigned number that a server packs for it.
  function Unsigned(v: Int32): nat {
    if v < 0 then v + 0x1_0000_0000 else v
  }

  function AllUnsigned(values: seq<Int32>): seq<nat> {
    seq(|values|, i requires 0 <= i < |values| => Unsigned(values[i]))
  }

  lemma DirectReadsUnsigned(v: Int32)
    ensures Direct(Unsigned(v)) == v
  {}

  lemma DirectMeaning(values: seq<Int32>)
    ensures Meaning(None, AllUnsigned(values)) == values
  {
    forall i | 0 <= i < |values| ensures Direct(Unsigned(values[i])) == values[i] {
      DirectReadsUnsigned(values[i]);
    }
  }

  // Without a palette, whatever values fit the width come back as they were,
  // negative ones too.
  lemma DirectRoundTrip(bits: nat, values: seq<Int32>, rest: Bytes)
    requires 9 <= bits <= 32 && Fit(AllUnsigned(values), bits)
    requires CeilDiv(|values|, 64 / bits) <= 4096
    ensures ReadContainer(Frame(bits, None, PackLongs(AllUnsigned(values), bits)) + rest, |values|)
            == Some((values, rest))
  {
    hide ReadContainer, Frame, PackLongs, Fit;
    DirectMeaning(values);
    DecodeInvertsPacking(bits, None, AllUnsigned(values), rest);
  }

  // ----- what is rejected ----------------------------------------------------

  // Counts are accepted up to 4096.
  lemma CountExact(v: Int32, rest: Bytes)
    ensures ReadCount(VarInt(v) + rest) == if 0 <= v <= 4096 then Some((v as nat, rest)) else None
  {
    VarIntRoundTrip(v, rest);
  }

  // No container has a width above 32, and none of width 1 to 8 an empty
  // palette.
  lemma MalformedIsRejected(bits: UInt8, rest: Bytes, size: nat)
    ensures ReadContainer([], size).None?
    ensures bits > 32 ==> ReadContainer([bits] + rest, size).None?
    ensures 1 <= bits <= 8 ==> ReadContainer([bits] + (VarInt(0) + rest), size).None?
  {
    hide VarInt, ReadCount;
    CountExact(0, rest);
    assert ([bits] + (VarInt(0) + rest))[1..] == VarInt(0) + rest;
  }
}
