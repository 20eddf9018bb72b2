// Bedrock paletted storage: a header, index words of variable field width, and
// a palette of signed varints.
module PalettedStorage {
  import opened Widths
  import opened VarInts
  import opened PackedFields

  // ----- the palette -------------------------------------------------------

  // The distinct values in order of first appearance.
  function Palette(values: seq<UInt32>): (r: seq<UInt32>)
    ensures |r| <= |values|
  {
    if values == [] then []
    else
      var last := values[|values| - 1];
      var before := Palette(values[..|values| - 1]);
      if last in before then before else before + [last]
  }

  function IndexOf(palette: seq<UInt32>, value: UInt32): (i: nat)
    requires value in palette
    ensures i < |palette| && palette[i] == value
  {
    if palette[0] == value then 0 else 1 + IndexOf(palette[1..], value)
  }

  // The palette has no duplicates and holds exactly the values.
  lemma {:induction false} PaletteExact(values: seq<UInt32>)
    ensures Distinct(Palette(values))
    ensures forall v :: v in Palette(values) <==> v in values
  {
    if values != [] {
      var last, before := values[|values| - 1], values[..|values| - 1];
      assert values == before + [last];
      PaletteExact(before);
    }
  }

  // Indices into a palette stay valid as the palette grows.
  lemma {:induction false} IndexOfPrefix(palette: seq<UInt32>, more: seq<UInt32>, value: UInt32)
    requires value in palette
    ensures IndexOf(palette + more, value) == IndexOf(palette, value)
  {
    if palette[0] != value {
      assert (palette + more)[1..] == palette[1..] + more;
      IndexOfPrefix(palette[1..], more, value);
    }
  }

  lemma {:induction false} IndexOfLast(palette: seq<UInt32>, value: UInt32)
    requires value !in palette
    ensures IndexOf(palette + [value], value) == |palette|
  {
    if palette != [] {
      assert (palette + [value])[1..] == palette[1..] + [value];
      IndexOfLast(palette[1..], value);
    }
  }

  function Indices(values: seq<UInt32>): (r: seq<nat>)
    ensures |r| == |values|
  {
    PaletteExact(values);
    seq(|values|, i requires 0 <= i < |values| => IndexOf(Palette(values), values[i]))
  }

  const FIELD_WIDTHS: seq<nat> := [1, 2, 3, 4, 5, 6, 8, 16]

  predicate IsWidth(bits: nat) {
    bits == 1 || bits == 2 || bits == 3 || bits == 4 || bits == 5 || bits == 6 || bits == 8 || bits == 16
  }

  function BitsForPalette(size: nat): (bits: nat)
    ensures bits == 0 || IsWidth(bits)
  {
    if size <= 1 then 0
    else if size <= 2 then 1
    else if size <= 4 then 2
    else if size <= 8 then 3
    else if size <= 16 then 4
    else if size <= 32 then 5
    else if size <= 64 then 6
    else if size <= 256 then 8
    else 16
  }

  // The chosen width holds every index, and no narrower allowed width does.
  lemma WidthIsLeast(size: nat)
    requires 1 < size <= 0x1_0000
    ensures size <= Pow2(BitsForPalette(size))
    ensures forall w: nat | IsWidth(w) && w < BitsForPalette(size) :: Pow2(w) < size
  {
    Pow2Values();
  }

  // The allowed widths; a palette of one value, or none, needs no index words.
  lemma WidthsExact(size: nat)
    ensures BitsForPalette(size) == 0 <==> size <= 1
    ensures forall w: nat :: IsWidth(w) <==> w in [1, 2, 3, 4, 5, 6, 8, 16]
  {}

  // The first byte of a storage is twice its field width plus one, the mark of
  // runtime IDs.
  lemma StorageMark(values: seq<UInt32>)
    ensures |StorageBytes(values)| > 0 && StorageBytes(values)[0] == 2 * BitsForPalette(|Palette(values)|) + 1
  {}

  // ----- index words -------------------------------------------------------

  // The first n fields from `start`, OR-ed into one 32-bit word.
  function Word(indices: seq<nat>, start: nat, n: nat, bits: nat): UInt32
    requires start + n <= |indices|
  {
    if n == 0 then 0
    else OrWord(Word(indices, start, n - 1, bits), Shl32(indices[start + n - 1], (n - 1) * bits))
  }

  function OrWord(a: UInt32, b: UInt32): UInt32 {
    Pow2Values();
    OrStaysInWord(a, b, 32);
    BitOr(a, b)
  }

  lemma {:induction false} OrStaysInWord(a: nat, b: nat, k: nat)
    ensures a < Pow2(k) && b < Pow2(k) ==> BitOr(a, b) < Pow2(k)
  {
    if k > 0 && a > 0 && b > 0 { OrStaysInWord(a / 2, b / 2, k - 1); }
  }

  function EntriesPerWord(bits: nat): nat
    requires IsWidth(bits)
  {
    32 / bits
  }

  function LittleEndian(word: UInt32): (r: Bytes)
    ensures |r| == 4
  {
    [word % 0x100, word / 0x100 % 0x100, word / 0x1_0000 % 0x100, word / 0x100_0000]
  }

  // The number of entries in the k-th word.
  function EntriesIn(k: nat, count: nat, bits: nat): nat
    requires IsWidth(bits) && k < CeilDiv(count, EntriesPerWord(bits))
  {
    Min(EntriesPerWord(bits), count - k * EntriesPerWord(bits))
  }

  function Words(indices: seq<nat>, bits: nat): (r: seq<UInt32>)
    requires IsWidth(bits)
    ensures |r| == CeilDiv(|indices|, EntriesPerWord(bits))
  {
    seq(CeilDiv(|indices|, EntriesPerWord(bits)), k requires 0 <= k < CeilDiv(|indices|, EntriesPerWord(bits)) =>
      WordNumber(indices, k, bits))
  }

  // The k-th index word.
  function WordNumber(indices: seq<nat>, k: nat, bits: nat): UInt32
    requires IsWidth(bits) && k < CeilDiv(|indices|, EntriesPerWord(bits))
  {
    Word(indices, k * EntriesPerWord(bits), EntriesIn(k, |indices|, bits), bits)
  }

  function AllLittleEndian(words: seq<UInt32>): Bytes {
    if words == [] then [] else LittleEndian(words[0]) + AllLittleEndian(words[1..])
  }

  function PaletteBytes(palette: seq<UInt32>): Bytes {
    if palette == [] then []
    else SignedVarInt(ToInt32(palette[0])) + PaletteBytes(palette[1..])
  }

  function PackedBytes(words: seq<UInt32>, palette: seq<UInt32>, bits: nat): Bytes
    requires IsWidth(bits)
  {
    Header(bits) + AllLittleEndian(words) + SignedVarInt(ToInt32(|palette| % WORD32)) + PaletteBytes(palette)
  }

  function StorageBytes(values: seq<UInt32>): Bytes {
    var palette := Palette(values);
    var bits := BitsForPalette(|palette|);
    if bits == 0 then Header(0) + PaletteBytes(palette)
    else PackedBytes(Words(Indices(values), bits), palette, bits)
  }

  // The field width, marked as carrying runtime IDs.
  function Header(bits: nat): Bytes
    requires bits == 0 || IsWidth(bits)
  {
    [bits * 2 + 1]
  }

  // ----- a reader of the format --------------------------------------------

  function FieldAt(words: seq<UInt32>, i: nat, bits: nat): nat
    requires IsWidth(bits) && i / EntriesPerWord(bits) < |words|
  {
    Field(words[i / EntriesPerWord(bits)], i % EntriesPerWord(bits), bits)
  }

  function FromLittleEndian(b0: int, b1: int, b2: int, b3: int): int {
    b0 + 0x100 * b1 + 0x1_0000 * b2 + 0x100_0000 * b3
  }

  function ReadWords(bytes: Bytes, n: nat): (r: Option<(seq<UInt32>, Bytes)>)
    ensures r.Some? ==> |r.value.0| == n
  {
    if n == 0 then Some(([], bytes))
    else if |bytes| < 4 then None
    else
      match ReadWords(bytes[4..], n - 1)
      case None => None
      case Some((words, rest)) =>
        Some(([FromLittleEndian(bytes[0], bytes[1], bytes[2], bytes[3])] + words, rest))
  }

  function ReadPalette(bytes: Bytes, n: nat): (r: Option<(seq<UInt32>, Bytes)>)
    ensures r.Some? ==> |r.value.0| == n
  {
    if n == 0 then Some(([], bytes))
    else
      match ReadSignedVarInt(bytes)
      case None => None
      case Some((v, rest)) =>
        match ReadPalette(rest, n - 1)
        case None => None
        case Some((palette, last)) => Some(([ToUInt32(v)] + palette, last))
  }

  lemma EntryHasWord(i: nat, size: nat, bits: nat)
    requires IsWidth(bits) && i < size
    ensures i / EntriesPerWord(bits) < CeilDiv(size, EntriesPerWord(bits))
  {}

  function Lookup(words: seq<UInt32>, palette: seq<UInt32>, bits: nat, size: nat): Option<seq<UInt32>>
    requires IsWidth(bits) && |words| == CeilDiv(size, EntriesPerWord(bits))
  {
    assert forall i | 0 <= i < size :: i / EntriesPerWord(bits) < |words| by {
      forall i | 0 <= i < size ensures i / EntriesPerWord(bits) < |words| { EntryHasWord(i, size, bits); }
    }
    if forall i | 0 <= i < size :: FieldAt(words, i, bits) < |palette| then
      Some(seq(size, i requires 0 <= i < size => palette[FieldAt(words, i, bits)]))
    else None
  }

  // The index words, the palette length and the palette, in that order.
  function ReadPacked(bytes: Bytes, bits: nat, size: nat): Option<(seq<UInt32>, Bytes)>
    requires IsWidth(bits)
  {
    match ReadWords(bytes, CeilDiv(size, EntriesPerWord(bits)))
    case None => None
    case Some((words, afterWords)) =>
      match ReadSignedVarInt(afterWords)
      case None => None
      case Some((count, afterCount)) =>
        if count < 0 then None
        else
          match ReadPalette(afterCount, count)
          case None => None
          case Some((palette, rest)) =>
            match Lookup(words, palette, bits, size)
            case None => None
            case Some(values) => Some((values, rest))
  }

  // Reads a storage of `size` values; the rest of the input is returned.
  function ReadStorage(bytes: Bytes, size: nat): Option<(seq<UInt32>, Bytes)> {
    if bytes == [] || bytes[0] % 2 != 1 then None
    else if bytes[0] == 1 then
      match ReadSignedVarInt(bytes[1..])
      case None => None
      case Some((v, rest)) => Some((Constant(ToUInt32(v), size), rest))
    else if !IsWidth(bytes[0] / 2) then None
    else ReadPacked(bytes[1..], bytes[0] / 2, size)
  }

  // ----- the round trip ----------------------------------------------------

  lemma LittleEndianInverts(word: UInt32)
    ensures var b := LittleEndian(word); FromLittleEndian(b[0], b[1], b[2], b[3]) == word
  {
    var q1 := word / 0x100;
    var q2 := q1 / 0x100;
    DivModUnique(word, 0x1_0000, q2, q1 % 0x100 * 0x100 + word % 0x100);
    DivModUnique(word, 0x100_0000, q2 / 0x100, q2 % 0x100 * 0x1_0000 + q1 % 0x100 * 0x100 + word % 0x100);
  }

  lemma {:induction false} ReadWordsInverts(words: seq<UInt32>, rest: Bytes)
    ensures ReadWords(AllLittleEndian(words) + rest, |words|) == Some((words, rest))
  {
    hide LittleEndian, FromLittleEndian;
    var bytes := AllLittleEndian(words) + rest;
    if words != [] {
      LittleEndianInverts(words[0]);
      assert bytes[..4] == LittleEndian(words[0]);
      assert bytes[4..] == AllLittleEndian(words[1..]) + rest;
      ReadWordsInverts(words[1..], rest);
      assert words == [words[0]] + words[1..];
    } else {
      assert bytes == rest;
    }
  }

  lemma {:induction false} ReadPaletteInverts(palette: seq<UInt32>, rest: Bytes)
    ensures ReadPalette(PaletteBytes(palette) + rest, |palette|) == Some((palette, rest))
  {
    if palette != [] {
      var tail := PaletteBytes(palette[1..]) + rest;
      assert PaletteBytes(palette) + rest == SignedVarInt(ToInt32(palette[0])) + tail;
      SignedVarIntRoundTrip(ToInt32(palette[0]), tail);
      ReadPaletteInverts(palette[1..], rest);
      assert palette == [palette[0]] + palette[1..];
    } else {
      assert PaletteBytes(palette) + rest == rest;
    }
  }

  // The OR-ed word is the number with its fields as digits.
  lemma {:induction false} WordIsDigits(indices: seq<nat>, start: nat, n: nat, bits: nat)
    requires start + n <= |indices| && n * bits <= 32 && Fit(indices, bits)
    ensures Word(indices, start, n, bits) == Digits(indices[start..start + n], bits)
  {
    if n > 0 {
      var shift := (n - 1) * bits;
      assert shift + bits == n * bits;
      var before, x := indices[start..start + n - 1], indices[start + n - 1];
      WordIsDigits(indices, start, n - 1, bits);
      assert indices[start..start + n] == before + [x];
      DigitsAppend(before, x, bits);
      DigitsBound(before, bits);
      FieldAbove(Digits(before, bits), x, shift, bits);
    }
  }

  // Where entry i lies: in a word that has room for it, at its own slot.
  lemma EntryPlace(i: nat, size: nat, bits: nat)
    requires IsWidth(bits) && i < size
    ensures var per := EntriesPerWord(bits);
            var k := i / per;
            && k < CeilDiv(size, per)
            && k * per + i % per == i
            && i % per < EntriesIn(k, size, bits)
            && EntriesIn(k, size, bits) * bits <= 32
  {
    var per := EntriesPerWord(bits);
    EntryHasWord(i, size, bits);
    WordHolds(bits, EntriesIn(i / per, size, bits));
  }

  lemma WordHolds(bits: nat, n: nat)
    requires IsWidth(bits) && n <= EntriesPerWord(bits)
    ensures n * bits <= 32
  {
    assert EntriesPerWord(bits) * bits <= 32;
    assert n * bits <= EntriesPerWord(bits) * bits;
  }

  // The k-th word carries the entries from the k-th stretch of the list.
  predicate Carries(word: UInt32, indices: seq<nat>, k: nat, bits: nat)
    requires IsWidth(bits) && k < CeilDiv(|indices|, EntriesPerWord(bits))
  {
    forall i | 0 <= i < |indices| && i / EntriesPerWord(bits) == k ::
      Field(word, i % EntriesPerWord(bits), bits) == indices[i]
  }

  lemma WordCarries(indices: seq<nat>, k: nat, bits: nat)
    requires IsWidth(bits) && k < CeilDiv(|indices|, EntriesPerWord(bits)) && Fit(indices, bits)
    ensures Carries(Words(indices, bits)[k], indices, k, bits)
  {
    hide Word, Digits, Field;
    var start, n := k * EntriesPerWord(bits), EntriesIn(k, |indices|, bits);
    WordHolds(bits, n);
    WordIsDigits(indices, start, n, bits);
    var fields := indices[start..start + n];
    forall i | 0 <= i < |indices| && i / EntriesPerWord(bits) == k
      ensures Field(Digits(fields, bits), i % EntriesPerWord(bits), bits) == indices[i]
    {
      EntryPlace(i, |indices|, bits);
      FieldOfDigits(fields, bits, i % EntriesPerWord(bits));
    }
  }

  // Every index of a list packed into words reads back.
  lemma FieldsOfWords(words: seq<UInt32>, indices: seq<nat>, bits: nat, i: nat)
    requires IsWidth(bits) && i < |indices|
    requires |words| == CeilDiv(|indices|, EntriesPerWord(bits))
    requires forall k | 0 <= k < |words| :: Carries(words[k], indices, k, bits)
    ensures i / EntriesPerWord(bits) < |words| && FieldAt(words, i, bits) == indices[i]
  {
    EntryHasWord(i, |indices|, bits);
    assert Carries(words[i / EntriesPerWord(bits)], indices, i / EntriesPerWord(bits), bits);
  }

  lemma IndicesFit(values: seq<UInt32>)
    requires 0 < |values| <= 0x1_0000
    ensures var bits := BitsForPalette(|Palette(values)|);
            bits > 0 ==> Fit(Indices(values), bits)
  {
    PaletteExact(values);
    if |Palette(values)| > 1 { WidthIsLeast(|Palette(values)|); }
  }

  lemma LookupByIndex(words: seq<UInt32>, palette: seq<UInt32>, bits: nat, indices: seq<nat>, values: seq<UInt32>)
    requires IsWidth(bits) && |indices| == |values|
    requires |words| == CeilDiv(|values|, EntriesPerWord(bits))
    requires forall i | 0 <= i < |values| :: indices[i] < |palette| && palette[indices[i]] == values[i]
    requires forall k | 0 <= k < |words| :: Carries(words[k], indices, k, bits)
    ensures Lookup(words, palette, bits, |values|) == Some(values)
  {
    forall i | 0 <= i < |values|
      ensures i / EntriesPerWord(bits) < |words| && FieldAt(words, i, bits) == indices[i]
    {
      FieldsOfWords(words, indices, bits, i);
    }
    var read := Lookup(words, palette, bits, |values|);
    assert read.Some?;
    assert read.value == values;
  }

  lemma LookupInverts(values: seq<UInt32>)
    requires 0 < |values| <= 0x1_0000 && BitsForPalette(|Palette(values)|) > 0
    ensures var bits := BitsForPalette(|Palette(values)|);
            Lookup(Words(Indices(values), bits), Palette(values), bits, |values|) == Some(values)
  {
    var bits := BitsForPalette(|Palette(values)|);
    var words := Words(Indices(values), bits);
    PaletteExact(values);
    IndicesFit(values);
    forall k | 0 <= k < |words| ensures Carries(words[k], Indices(values), k, bits) {
      WordCarries(Indices(values), k, bits);
    }
    LookupByIndex(words, Palette(values), bits, Indices(values), values);
  }

  // The parts of a storage with index words, read one after the other.
  lemma ReadPackedParts(words: seq<UInt32>, palette: seq<UInt32>, bits: nat, size: nat, rest: Bytes)
    requires IsWidth(bits) && |words| == CeilDiv(size, EntriesPerWord(bits)) && |palette| <= 0x1_0000
    ensures ReadPacked(AllLittleEndian(words) + (SignedVarInt(|palette|) + (PaletteBytes(palette) + rest)), bits, size)
            == match Lookup(words, palette, bits, size)
               case None => None
               case Some(values) => Some((values, rest))
  {
    var tail := PaletteBytes(palette) + rest;
    ReadWordsInverts(words, SignedVarInt(|palette|) + tail);
    SignedVarIntRoundTrip(|palette|, tail);
    ReadPaletteInverts(palette, rest);
  }

  // Storing up to 65536 values and reading them back gives the same values and
  // leaves the rest of the input untouched.
  lemma StorageRoundTrip(values: seq<UInt32>, rest: Bytes)
    requires 0 < |values| <= 0x1_0000
    ensures ReadStorage(StorageBytes(values) + rest, |values|) == Some((values, rest))
  {
    if BitsForPalette(|Palette(values)|) == 0 {
      UniformRoundTrip(values, |values|, rest);
    } else {
      PackedRoundTrip(values, rest);
    }
  }

  lemma ReadAfterHeader(bits: nat, tail: Bytes, size: nat)
    requires IsWidth(bits)
    ensures ReadStorage(Header(bits) + tail, size) == ReadPacked(tail, bits, size)
  {
    hide ReadPacked;
    assert (Header(bits) + tail)[1..] == tail;
  }

  lemma Reassociate(h: Bytes, w: Bytes, c: Bytes, p: Bytes, rest: Bytes)
    ensures h + w + c + p + rest == h + (w + (c + (p + rest)))
  {}

  lemma ReadPackedBytes(words: seq<UInt32>, palette: seq<UInt32>, bits: nat, size: nat, rest: Bytes)
    requires IsWidth(bits) && |words| == CeilDiv(size, EntriesPerWord(bits)) && |palette| <= 0x1_0000
    ensures ReadStorage(PackedBytes(words, palette, bits) + rest, size)
            == match Lookup(words, palette, bits, size)
               case None => None
               case Some(values) => Some((values, rest))
  {
    hide ReadStorage, ReadPacked, Lookup, AllLittleEndian, SignedVarInt, PaletteBytes, Header;
    var w, c, p := AllLittleEndian(words), SignedVarInt(|palette|), PaletteBytes(palette);
    Reassociate(Header(bits), w, c, p, rest);
    ReadAfterHeader(bits, w + (c + (p + rest)), size);
    ReadPackedParts(words, palette, bits, size, rest);
  }

  lemma PackedRoundTrip(values: seq<UInt32>, rest: Bytes)
    requires 0 < |values| <= 0x1_0000 && BitsForPalette(|Palette(values)|) > 0
    ensures ReadStorage(StorageBytes(values) + rest, |values|) == Some((values, rest))
  {
    var bits := BitsForPalette(|Palette(values)|);
    LookupInverts(values);
    ReadPackedBytes(Words(Indices(values), bits), Palette(values), bits, |values|, rest);
  }

  lemma ReadUniform(value: UInt32, size: nat, rest: Bytes)
    ensures ReadStorage([1] + SignedVarInt(ToInt32(value)) + rest, size) == Some((Constant(value, size), rest))
  {
    var bytes := [1] + SignedVarInt(ToInt32(value)) + rest;
    assert bytes[1..] == SignedVarInt(ToInt32(value)) + rest;
    SignedVarIntRoundTrip(ToInt32(value), rest);
  }

  // A storage of equal values reads back at any size.
  lemma UniformRoundTrip(values: seq<UInt32>, size: nat, rest: Bytes)
    requires 0 < |values| && |Palette(values)| <= 1
    ensures ReadStorage(StorageBytes(values) + rest, size) == Some((Constant(values[0], size), rest))
    ensures size == |values| ==> values == Constant(values[0], size)
  {
    UniformStorageBytes(values[0], |values|, values);
    ReadUniform(values[0], size, rest);
  }

  // Equal values take no index words, however many there are.
  lemma UniformStorageBytes(value: UInt32, n: nat, values: seq<UInt32>)
    requires n > 0 && |values| == n
    requires |Palette(values)| <= 1 && value in values
    ensures Palette(values) == [value]
    ensures forall i | 0 <= i < n :: values[i] == value
    ensures StorageBytes(values) == [1] + SignedVarInt(ToInt32(value))
  {
    PaletteExact(values);
    assert value in Palette(values);
    assert Palette(values) == [value];
    forall i | 0 <= i < n ensures values[i] == value {
      assert values[i] in Palette(values);
    }
    assert PaletteBytes([value]) == SignedVarInt(ToInt32(value)) + PaletteBytes([]);
  }

  // ----- the writer, step by step ------------------------------------------

  method BedrockBitsForPalette(size: nat) returns (bits: nat)
    ensures bits == BitsForPalette(size)
  {
    Pow2Values();
    if size <= 1 { return 0; }
    for k := 0 to |FIELD_WIDTHS|
      invariant k > 0 ==> size > Pow2(FIELD_WIDTHS[k - 1])
    {
      if size <= Pow2(FIELD_WIDTHS[k]) { return FIELD_WIDTHS[k]; }
    }
    return 16;
  }

  method BuildPalette(values: seq<UInt32>) returns (palette: seq<UInt32>, indices: seq<nat>)
    ensures palette == Palette(values) && indices == Indices(values)
  {
    palette, indices := [], [];
    var lookup: map<UInt32, nat> := map[];
    for i := 0 to |values|
      invariant palette == Palette(values[..i]) && |indices| == i
      invariant forall v :: v in lookup <==> v in palette
      invariant forall v | v in lookup :: lookup[v] == IndexOf(palette, v)
      invariant forall k | 0 <= k < i :: values[k] in palette && indices[k] == IndexOf(palette, values[k])
    {
      var value := values[i];
      assert values[..i + 1][..i] == values[..i];
      if value !in lookup {
        ghost var before := palette;
        IndexOfLast(palette, value);
        lookup := lookup[value := |palette|];
        palette := palette + [value];
        forall v | v in before ensures IndexOf(palette, v) == IndexOf(before, v) {
          IndexOfPrefix(before, [value], v);
        }
      }
      indices := indices + [lookup[value]];
    }
    assert values[..|values|] == values;
  }

  lemma {:induction false} AllLittleEndianAppend(words: seq<UInt32>, word: UInt32)
    ensures AllLittleEndian(words + [word]) == AllLittleEndian(words) + LittleEndian(word)
  {
    if words == [] {
      assert words + [word] == [word] && AllLittleEndian([word][1..]) == [];
    } else {
      assert (words + [word])[1..] == words[1..] + [word];
      AllLittleEndianAppend(words[1..], word);
    }
  }

  lemma {:induction false} PaletteBytesAppend(palette: seq<UInt32>, value: UInt32)
    ensures PaletteBytes(palette + [value]) == PaletteBytes(palette) + SignedVarInt(ToInt32(value))
  {
    if palette == [] {
      assert palette + [value] == [value] && PaletteBytes([value][1..]) == [];
    } else {
      assert (palette + [value])[1..] == palette[1..] + [value];
      PaletteBytesAppend(palette[1..], value);
    }
  }

  method PackWord(indices: seq<nat>, wordIndex: nat, entriesPerWord: nat, bits: nat) returns (word: UInt32)
    requires IsWidth(bits) && entriesPerWord == EntriesPerWord(bits)
    requires wordIndex < CeilDiv(|indices|, entriesPerWord)
    ensures word == WordNumber(indices, wordIndex, bits)
  {
    hide OrWord, Shl32;
    word := 0;
    var start := wordIndex * entriesPerWord;
    EntryHasWordStart(wordIndex, |indices|, bits);
    assert EntriesIn(wordIndex, |indices|, bits) == Min(entriesPerWord, |indices| - start);
    var slot := 0;
    while slot < entriesPerWord
      invariant 0 <= slot <= Min(entriesPerWord, |indices| - start)
      invariant word == Word(indices, start, slot, bits)
    {
      var index := start + slot;
      if index >= |indices| { break; }
      word := OrWord(word, Shl32(indices[index], slot * bits));
      slot := slot + 1;
    }
  }

  method WriteIndexWords(out: ByteBuffer, indices: seq<nat>, bits: nat)
    requires IsWidth(bits)
    modifies out
    ensures out.data == old(out.data) + AllLittleEndian(Words(indices, bits))
  {
    hide LittleEndian, WordNumber;
    var entriesPerWord := EntriesPerWord(bits);
    var wordCount := CeilDiv(|indices|, entriesPerWord);
    ghost var words := Words(indices, bits);
    for wordIndex := 0 to wordCount
      invariant out.data == old(out.data) + AllLittleEndian(words[..wordIndex])
    {
      var word := PackWord(indices, wordIndex, entriesPerWord, bits);
      AllLittleEndianAppend(words[..wordIndex], word);
      assert words[..wordIndex + 1] == words[..wordIndex] + [word];
      WriteLittleEndian(out, word);
    }
    assert words[..wordCount] == words;
  }

  lemma EntryHasWordStart(k: nat, size: nat, bits: nat)
    requires IsWidth(bits) && k < CeilDiv(size, EntriesPerWord(bits))
    ensures k * EntriesPerWord(bits) < size
  {
    var per := EntriesPerWord(bits);
    assert k + 1 <= (size + per - 1) / per;
    assert (k + 1) * per <= size + per - 1;
  }

  method WriteLittleEndian(out: ByteBuffer, word: UInt32)
    modifies out
    ensures out.data == old(out.data) + LittleEndian(word)
  {
    out.WriteByte(word % 0x100);
    out.WriteByte(word / 0x100 % 0x100);
    out.WriteByte(word / 0x1_0000 % 0x100);
    out.WriteByte(word / 0x100_0000);
  }

  method WritePalette(out: ByteBuffer, palette: seq<UInt32>)
    modifies out
    ensures out.data == old(out.data) + PaletteBytes(palette)
  {
    for i := 0 to |palette|
      invariant out.data == old(out.data) + PaletteBytes(palette[..i])
    {
      PaletteBytesAppend(palette[..i], palette[i]);
      assert palette[..i + 1] == palette[..i] + [palette[i]];
      WriteSignedVarInt(out, ToInt32(palette[i]));
    }
    assert palette[..|palette|] == palette;
  }

  method WriteHeader(out: ByteBuffer, bits: nat)
    requires bits == 0 || IsWidth(bits)
    modifies out
    ensures out.data == old(out.data) + Header(bits)
  {
    OrOfDisjoint(1, bits, 1);
    OrCommutes(bits * 2, 1);
    out.WriteByte(BitOr(bits * 2, 1));
  }

  // Everything after the header of a storage with index words.
  method WritePacked(out: ByteBuffer, indices: seq<nat>, palette: seq<UInt32>, bits: nat)
    requires IsWidth(bits)
    modifies out
    ensures out.data
            == old(out.data) + AllLittleEndian(Words(indices, bits)) + SignedVarInt(ToInt32(|palette| % WORD32))
  {
    hide AllLittleEndian, SignedVarInt, Words;
    WriteIndexWords(out, indices, bits);
    WriteSignedVarInt(out, ToInt32(|palette| % WORD32));
  }

  method WriteBedrockStorage(out: ByteBuffer, values: seq<UInt32>)
    modifies out
    ensures out.data == old(out.data) + StorageBytes(values)
  {
    hide AllLittleEndian, PaletteBytes, SignedVarInt, Words, Indices, Palette, BitsForPalette, Header, ToInt32;
    var palette, indices := BuildPalette(values);
    var bits := BedrockBitsForPalette(|palette|);
    WriteHeader(out, bits);
    if bits != 0 {
      WritePacked(out, indices, palette, bits);
    }
    WritePalette(out, palette);
    if bits != 0 {
      Regroup(old(out.data), Header(bits), AllLittleEndian(Words(indices, bits)),
              SignedVarInt(ToInt32(|palette| % WORD32)), PaletteBytes(palette));
    } else {
      assert old(out.data) + Header(0) + PaletteBytes(palette) == old(out.data) + (Header(0) + PaletteBytes(palette));
    }
  }

  lemma Regroup(d: Bytes, h: Bytes, w: Bytes, c: Bytes, p: Bytes)
    ensures d + h + w + c + p == d + (h + w + c + p)
    ensures d + h + (w + c) + p == d + (h + w + c + p)
  {}
}
