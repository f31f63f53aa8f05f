/**
  Making a subset font reproducible: the head table's run-time fields are zeroed, its directory
  checksum and the whole-font checksumAdjustment recomputed, in place (subset.go). Checksums are those
  of the OpenType specification, chapter "OpenType font file", section "Calculating checksums".
 */
module FontHead {
  import opened Wrappers

  type Byte = b: int | 0 <= b < 256

  const TWO32 := 0x1_0000_0000
  const MAGIC := 0xB1B0_AFBA

  // ---- words and checksums ----------------------------------------------------------------------

  /** Bytes past the end read as zero: a trailing partial word is zero-padded. */
  function ByteAt(s: seq<Byte>, i: nat): int {
    if i < |s| then s[i] else 0
  }

  /** The big-endian 32-bit word at i. */
  function Word(s: seq<Byte>, i: nat): (w: int)
    ensures 0 <= w < TWO32
  {
    ByteAt(s, i) * 0x100_0000 + ByteAt(s, i + 1) * 0x1_0000 + ByteAt(s, i + 2) * 0x100 + ByteAt(s, i + 3)
  }

  /** The unreduced sum of the words from offset i on. */
  function Sum(s: seq<Byte>, i: nat): (n: int)
    ensures n >= 0
    decreases |s| - i
  {
    if i >= |s| then 0 else Word(s, i) + Sum(s, i + 4)
  }

  function Checksum(s: seq<Byte>): (c: int)
    ensures 0 <= c < TWO32
  {
    Sum(s, 0) % TWO32
  }

  lemma AddMod(a: int, b: int)
    ensures (a % TWO32 + b) % TWO32 == (a + b) % TWO32
  {
    var q := a / TWO32;
    assert a + b == (a % TWO32 + b) + q * TWO32;
  }

  /** fontChecksum: wrapping 32-bit addition over the words, then the padded last one. */
  method FontChecksum(s: seq<Byte>) returns (sum: int)
    ensures sum == Checksum(s)
  {
    sum := 0;
    var i := 0;
    while i + 4 <= |s|
      invariant 0 <= i <= |s| && i % 4 == 0
      invariant (sum + Sum(s, i)) % TWO32 == Checksum(s)
      invariant 0 <= sum < TWO32
    {
      AddMod(sum + Word(s, i), Sum(s, i + 4));
      sum := (sum + Word(s, i)) % TWO32;
      i := i + 4;
    }
    if i < |s| {
      AddMod(sum + Word(s, i), 0);
      sum := (sum + Word(s, i)) % TWO32;
      assert Sum(s, i + 4) == 0;
    }
  }

  // ---- writing ----------------------------------------------------------------------------------

  /** Byte n of a 32-bit value, most significant first. */
  function Octet(v: int, n: nat): Byte
    requires 0 <= v < TWO32 && n < 4
  {
    if n == 0 then v / 0x100_0000
    else if n == 1 then v / 0x1_0000 % 0x100
    else if n == 2 then v / 0x100 % 0x100
    else v % 0x100
  }

  lemma Octets(v: int)
    requires 0 <= v < TWO32
    ensures v == Octet(v, 0) * 0x100_0000 + Octet(v, 1) * 0x1_0000 + Octet(v, 2) * 0x100 + Octet(v, 3)
  {
  }

  function Put32(s: seq<Byte>, at: nat, v: int): (r: seq<Byte>)
    requires at + 4 <= |s| && 0 <= v < TWO32
    ensures |r| == |s|
    ensures Word(r, at) == v
    ensures forall k :: 0 <= k < |s| ==> r[k] == if at <= k < at + 4 then Octet(v, k - at) else s[k]
  {
    Octets(v);
    s[at := Octet(v, 0)][at + 1 := Octet(v, 1)][at + 2 := Octet(v, 2)][at + 3 := Octet(v, 3)]
  }

  method PutUint32(ttf: array<Byte>, at: nat, v: int)
    requires at + 4 <= ttf.Length && 0 <= v < TWO32
    modifies ttf
    ensures ttf[..] == Put32(old(ttf[..]), at, v)
  {
    hide Octet;
    ttf[at] := Octet(v, 0);
    ttf[at + 1] := Octet(v, 1);
    ttf[at + 2] := Octet(v, 2);
    ttf[at + 3] := Octet(v, 3);
  }

  /** What one byte position weighs in the checksum. */
  function Weight(k: nat): int {
    if k % 4 == 0 then 0x100_0000 else if k % 4 == 1 then 0x1_0000 else if k % 4 == 2 then 0x100 else 1
  }

  /** What byte b at position k adds to the checksum. */
  function Share(b: Byte, k: nat): int {
    b * Weight(k)
  }

  lemma WordByte(s: seq<Byte>, i: nat, k: nat, b: Byte)
    requires i % 4 == 0 && k < |s|
    ensures Word(s[k := b], i) == Word(s, i) + (if i <= k < i + 4 then Share(b, k) - Share(s[k], k) else 0)
  {
  }

  lemma {:induction false} SumByte(s: seq<Byte>, i: nat, k: nat, b: Byte)
    requires i % 4 == 0 && k < |s|
    ensures Sum(s[k := b], i) == Sum(s, i) + (if i <= k then Share(b, k) - Share(s[k], k) else 0)
    decreases |s| - i
  {
    if i < |s| {
      WordByte(s, i, k, b);
      hide Word, Share;
      SumByte(s, i + 4, k, b);
    }
  }

  /** The word at `at` as the checksum sees it: its bytes rotated by the misalignment. */
  function Rotated(v: int, at: nat): int
    requires 0 <= v < TWO32
  {
    Share(Octet(v, 0), at) + Share(Octet(v, 1), at + 1) + Share(Octet(v, 2), at + 2) + Share(Octet(v, 3), at + 3)
  }

  /** Overwriting four zero bytes adds the rotated word. */
  lemma SumPut(s: seq<Byte>, at: nat, v: int)
    requires at + 4 <= |s| && 0 <= v < TWO32 && forall k :: at <= k < at + 4 ==> s[k] == 0
    ensures Sum(Put32(s, at, v), 0) == Sum(s, 0) + Rotated(v, at)
  {
    assert forall k :: Share(0, k) == 0;
    hide Octet, Share, Sum, Word;
    var s1 := s[at := Octet(v, 0)];
    var s2 := s1[at + 1 := Octet(v, 1)];
    var s3 := s2[at + 2 := Octet(v, 2)];
    SumByte(s, 0, at, Octet(v, 0));
    SumByte(s1, 0, at + 1, Octet(v, 1));
    SumByte(s2, 0, at + 2, Octet(v, 2));
    SumByte(s3, 0, at + 3, Octet(v, 3));
  }

  lemma Weights(at: nat)
    ensures match at % 4
            case 0 =>
              Weight(at) == 0x100_0000 && Weight(at + 1) == 0x1_0000 &&
              Weight(at + 2) == 0x100 && Weight(at + 3) == 1
            case 1 =>
              Weight(at) == 0x1_0000 && Weight(at + 1) == 0x100 &&
              Weight(at + 2) == 1 && Weight(at + 3) == 0x100_0000
            case 2 =>
              Weight(at) == 0x100 && Weight(at + 1) == 1 &&
              Weight(at + 2) == 0x100_0000 && Weight(at + 3) == 0x1_0000
            case _ =>
              Weight(at) == 1 && Weight(at + 1) == 0x100_0000 &&
              Weight(at + 2) == 0x1_0000 && Weight(at + 3) == 0x100
  {
  }

  lemma RotatedBound(v: int, at: nat)
    requires 0 <= v < TWO32
    ensures 0 <= Rotated(v, at) < TWO32
    ensures at % 4 == 0 ==> Rotated(v, at) == v
  {
    Octets(v);
    Weights(at);
    hide Octet, Weight;
    var m := at % 4;
    if m == 0 {
    } else if m == 1 {
    } else if m == 2 {
    } else {
    }
  }

  /** The rotation leaves v alone: aligned, or its bytes repeat with the period of the misalignment. */
  predicate Survives(v: int, at: nat)
    requires 0 <= v < TWO32
  {
    at % 4 == 0 || (Octet(v, 0) == Octet(v, 2) && Octet(v, 1) == Octet(v, 3) &&
      (at % 4 == 2 || Octet(v, 0) == Octet(v, 1)))
  }

  lemma SameDigits(a0: Byte, a1: Byte, a2: Byte, a3: Byte, b0: Byte, b1: Byte, b2: Byte, b3: Byte)
    requires a0 * 0x100_0000 + a1 * 0x1_0000 + a2 * 0x100 + a3 == b0 * 0x100_0000 + b1 * 0x1_0000 + b2 * 0x100 + b3
    ensures a0 == b0 && a1 == b1 && a2 == b2 && a3 == b3
  {
    assert a0 == b0;
    assert a1 == b1;
    assert a2 == b2;
  }

  lemma RotationExactly(v: int, at: nat)
    requires 0 <= v < TWO32
    ensures Rotated(v, at) == v <==> Survives(v, at)
  {
    Octets(v);
    Weights(at);
    RotatedBound(v, at);
    hide Octet, Weight;
    var b0, b1, b2, b3 := Octet(v, 0), Octet(v, 1), Octet(v, 2), Octet(v, 3);
    if Rotated(v, at) == v {
      match at % 4
      case 0 =>
      case 1 => SameDigits(b0, b1, b2, b3, b3, b0, b1, b2);
      case 2 => SameDigits(b0, b1, b2, b3, b2, b3, b0, b1);
      case _ => SameDigits(b0, b1, b2, b3, b1, b2, b3, b0);
    }
  }

  // ---- the head table ---------------------------------------------------------------------------

  datatype Head = Head(rec: nat, off: nat, length: nat)

  const TAG: seq<Byte> := [0x68, 0x65, 0x61, 0x64]

  function TablesCount(s: seq<Byte>): nat {
    ByteAt(s, 4) * 0x100 + ByteAt(s, 5)
  }

  function FindFrom(s: seq<Byte>, i: nat): Option<Head>
    decreases TablesCount(s) - i
  {
    var r := 12 + i * 16;
    if i >= TablesCount(s) || r + 16 > |s| then None
    else if s[r..r + 4] == TAG then
      var o, l := Word(s, r + 8), Word(s, r + 12);
      if l >= 36 && o + l <= |s| then Some(Head(r, o, l)) else None
    else FindFrom(s, i + 1)
  }

  function FindHead(s: seq<Byte>): Option<Head> {
    if |s| < 12 then None else FindFrom(s, 0)
  }

  lemma {:induction false} FoundInBounds(s: seq<Byte>, i: nat)
    ensures FindFrom(s, i).Some? ==>
              var h := FindFrom(s, i).value;
              h.rec >= 12 + 16 * i && h.rec + 16 <= |s| && h.length >= 36 && h.off + h.length <= |s|
    decreases TablesCount(s) - i
  {
    if i < TablesCount(s) && 12 + i * 16 + 16 <= |s| {
      FoundInBounds(s, i + 1);
    }
  }

  /** headTable: the first directory record tagged head, if its table is usable. */
  method HeadTable(ttf: array<Byte>) returns (h: Option<Head>)
    ensures h == FindHead(ttf[..])
  {
    if ttf.Length < 12 {
      return None;
    }
    var s := ttf[..];
    var numTables := TablesCount(s);
    for i := 0 to numTables
      invariant FindFrom(s, 0) == FindFrom(s, i)
    {
      var r := 12 + i * 16;
      if r + 16 > ttf.Length {
        break;
      }
      if ttf[r..r + 4] == TAG {
        var o, l := Word(s, r + 8), Word(s, r + 12);
        if l >= 36 && o + l <= ttf.Length {
          return Some(Head(r, o, l));
        }
        return None;
      }
    }
    return None;
  }

  /** The i-th directory record lies within the font and is tagged head. */
  predicate TaggedHead(s: seq<Byte>, i: nat) {
    28 + 16 * i <= |s| && s[12 + 16 * i] == 0x68 && s[13 + 16 * i] == 0x65 && s[14 + 16 * i] == 0x61 &&
      s[15 + 16 * i] == 0x64
  }

  /** h is the table of the first record tagged head, the i-th, and is usable: 36 bytes at least, inside the font. */
  predicate IsHead(s: seq<Byte>, h: Head, i: nat) {
    && |s| >= 12 && i < (s[4] as int) * 256 + s[5] as int && TaggedHead(s, i) &&
      (forall j: nat :: j < i ==> !TaggedHead(s, j))
    && h == Head(12 + 16 * i, Word(s, 20 + 16 * i), Word(s, 24 + 16 * i))
    && h.length >= 36 && h.off + h.length <= |s|
  }

  lemma TagMeansTagged(s: seq<Byte>, i: nat)
    requires 28 + 16 * i <= |s|
    ensures s[12 + 16 * i..16 + 16 * i] == TAG <==> TaggedHead(s, i)
  {
    var t := s[12 + 16 * i..16 + 16 * i];
    assert t[0] == s[12 + 16 * i] && t[1] == s[13 + 16 * i] && t[2] == s[14 + 16 * i] && t[3] == s[15 + 16 * i];
  }

  lemma {:induction false} FindFromExactly(s: seq<Byte>, i: nat, h: Head)
    requires |s| >= 12 && forall j: nat :: j < i ==> !TaggedHead(s, j)
    ensures FindFrom(s, i) == Some(h) <==> exists k: nat :: i <= k && IsHead(s, h, k)
    decreases TablesCount(s) - i
  {
    hide Word, TaggedHead;
    var r := 12 + i * 16;
    if i < TablesCount(s) && r + 16 <= |s| {
      TagMeansTagged(s, i);
      if s[r..r + 4] != TAG {
        FindFromExactly(s, i + 1, h);
        assert forall k: nat :: i <= k && IsHead(s, h, k) ==> i + 1 <= k;
      } else {
        assert forall k: nat :: i <= k && IsHead(s, h, k) ==> k == i;
        assert IsHead(s, h, i) ==> exists k: nat :: i <= k && IsHead(s, h, k);
      }
    } else if i < TablesCount(s) {
      NoRoom(s, i);
    }
  }

  lemma NoRoom(s: seq<Byte>, i: nat)
    requires 28 + 16 * i > |s|
    ensures forall k: nat :: i <= k ==> !TaggedHead(s, k)
  {
  }

  /** Which fonts have a usable head table, and which table it is. */
  lemma HeadFoundExactly(s: seq<Byte>, h: Head)
    ensures FindHead(s) == Some(h) <==> exists i: nat :: IsHead(s, h, i)
  {
    if |s| >= 12 {
      FindFromExactly(s, 0, h);
    }
  }

  // ---- normalization ----------------------------------------------------------------------------

  function Zeroed(s: seq<Byte>, lo: nat, hi: nat): (r: seq<Byte>)
    requires lo <= hi <= |s|
    ensures |r| == |s| && forall k :: 0 <= k < |s| ==> r[k] == if lo <= k < hi then 0 else s[k]
    decreases hi - lo
  {
    if lo == hi then s else Zeroed(s, lo, hi - 1)[hi - 1 := 0]
  }

  /** Steps 1 and 2: checksumAdjustment and the timestamps zeroed. */
  function Cleared(s: seq<Byte>, h: Head): (r: seq<Byte>)
    requires h.length >= 36 && h.off + h.length <= |s|
    ensures |r| == |s|
  {
    Zeroed(Put32(s, h.off + 8, 0), h.off + 20, h.off + 36)
  }

  /** Step 3: the directory entry recomputed over the cleared head. */
  function Entered(s: seq<Byte>, h: Head): (r: seq<Byte>)
    requires h.length >= 36 && h.off + h.length <= |s| && h.rec + 16 <= |s|
    ensures |r| == |s|
  {
    var c := Cleared(s, h);
    Put32(c, h.rec + 4, Checksum(c[h.off..h.off + h.length]))
  }

  function Adjustment(s: seq<Byte>): (a: int)
    ensures 0 <= a < TWO32
  {
    (MAGIC - Checksum(s)) % TWO32
  }

  function Normalized(s: seq<Byte>): (r: seq<Byte>)
    ensures |r| == |s|
  {
    FoundInBounds(s, 0);
    match FindHead(s)
    case None => s
    case Some(h) => Put32(Entered(s, h), h.off + 8, Adjustment(Entered(s, h)))
  }

  /** normalizeFontHead; a font without a usable head table is left byte for byte. */
  method NormalizeFontHead(ttf: array<Byte>)
    modifies ttf
    ensures ttf[..] == Normalized(old(ttf[..]))
    ensures FindHead(old(ttf[..])).None? ==> ttf[..] == old(ttf[..])
  {
    hide Put32, Checksum, FindFrom, Octet, Word;
    ghost var s := ttf[..];
    FoundInBounds(s, 0);
    var found := HeadTable(ttf);
    if found.None? {
      return;
    }
    var h := found.value;
    PutUint32(ttf, h.off + 8, 0);
    ghost var s1 := ttf[..];
    for j := h.off + 20 to h.off + 36
      invariant ttf[..] == Zeroed(s1, h.off + 20, j)
    {
      ttf[j] := 0;
    }
    assert ttf[..] == Cleared(s, h);
    var entry := FontChecksum(ttf[h.off..h.off + h.length]);
    assert ttf[h.off..h.off + h.length] == ttf[..][h.off..h.off + h.length];
    PutUint32(ttf, h.rec + 4, entry);
    assert ttf[..] == Entered(s, h);
    var whole := FontChecksum(ttf[..]);
    PutUint32(ttf, h.off + 8, (MAGIC - whole) % TWO32);
  }

  // ---- what normalization guarantees ------------------------------------------------------------

  /** The head table's directory checksum lies outside the head table. */
  predicate EntryOutside(h: Head) {
    h.rec + 8 <= h.off || h.off + h.length <= h.rec + 4
  }

  lemma ClearedBytes(s: seq<Byte>, h: Head, k: nat)
    requires h.length >= 36 && h.off + h.length <= |s| && k < |s|
    ensures Cleared(s, h)[k] == if h.off + 8 <= k < h.off + 12 || h.off + 20 <= k < h.off + 36 then 0 else s[k]
  {
    assert Word(Put32(s, h.off + 8, 0), h.off + 8) == 0;
  }

  lemma EnteredIsClear(s: seq<Byte>, h: Head)
    requires h.length >= 36 && h.off + h.length <= |s| && h.rec + 16 <= |s| && EntryOutside(h)
    ensures forall k :: h.off + 8 <= k < h.off + 12 ==> Entered(s, h)[k] == 0
  {
    forall k | h.off + 8 <= k < h.off + 12 ensures Entered(s, h)[k] == 0 {
      ClearedBytes(s, h, k);
    }
  }

  /**
    The whole-font checksum comes out as the required constant exactly when the head table is
    4-aligned or the adjustment's bytes repeat with the period of the misalignment. This holds for
    any font length.
   */
  lemma WholeFontChecksum(s: seq<Byte>)
    requires FindHead(s).Some? && EntryOutside(FindHead(s).value)
    ensures var h, n := FindHead(s).value, Normalized(s);
            && h.length >= 36 && h.off + h.length <= |s| && h.rec + 16 <= |s|
            && (Checksum(n) == MAGIC <==> Survives(Adjustment(Entered(s, h)), h.off))
            && (h.off % 4 == 0 ==> Checksum(n) == MAGIC)
  {
    hide Put32, FindFrom, Octet, Word, Sum, Rotated, Entered;
    FoundInBounds(s, 0);
    var h := FindHead(s).value;
    var e := Entered(s, h);
    var a := Adjustment(e);
    EnteredIsClear(s, h);
    SumPut(e, h.off + 8, a);
    RotatedBound(a, h.off + 8);
    RotationExactly(a, h.off + 8);
    assert (h.off + 8) % 4 == h.off % 4;
    SumsToMagic(Sum(e, 0), a, Rotated(a, h.off + 8));
  }

  lemma SumsToMagic(sum: int, a: int, r: int)
    requires 0 <= r < TWO32 && a == (MAGIC - sum % TWO32) % TWO32
    ensures (sum + r) % TWO32 == MAGIC <==> r == a
  {
    var q, c := sum / TWO32, sum % TWO32;
    assert sum == q * TWO32 + c;
    AddMod(sum, r);
  }

  // ---- a misaligned font ------------------------------------------------------------------------

  lemma {:induction false} SumOfZeros(s: seq<Byte>, i: nat)
    requires forall k :: i <= k < |s| ==> s[k] == 0
    ensures Sum(s, i) == 0
    decreases |s| - i
  {
    if i < |s| {
      SumOfZeros(s, i + 4);
    }
  }

  /** A byte of a font with one table, a zeroed head of 36 bytes; hi and lo are outer bytes of its offset. */
  function OneTableByte(k: nat, hi: Byte, lo: Byte): Byte {
    if k == 5 then 1
    else if 12 <= k < 16 then TAG[k - 12]
    else if k == 20 then hi
    else if k == 23 then lo
    else if k == 27 then 36
    else 0
  }

  function OneTable(size: nat, hi: Byte, lo: Byte): (s: seq<Byte>)
    ensures |s| == size && forall k :: 0 <= k < size ==> s[k] == OneTableByte(k, hi, lo)
  {
    seq(size, k requires 0 <= k < size => OneTableByte(k, hi, lo))
  }

  lemma OneTableWords(size: nat, hi: Byte, lo: Byte)
    requires size >= 28
    ensures var s := OneTable(size, hi, lo);
            && Word(s, 0) == 0 && Word(s, 4) == 0x1_0000 && Word(s, 8) == 0 && Word(s, 12) == 0x6865_6164
            && Word(s, 16) == 0 && Word(s, 20) == hi * 0x100_0000 + lo && Word(s, 24) == 36
            && TablesCount(s) == 1 && s[12..16] == TAG
  {
    hide OneTable;
    var s := OneTable(size, hi, lo);
    assert forall k :: 0 <= k < 28 ==> ByteAt(s, k) == OneTableByte(k, hi, lo);
    assert s[12..16] == TAG;
  }

  lemma OneTableHead(size: nat, hi: Byte, lo: Byte)
    requires size >= 28
    ensures var off := hi * 0x100_0000 + lo;
            FindHead(OneTable(size, hi, lo)) == if off + 36 <= size then Some(Head(12, off, 36)) else None
  {
    hide OneTable, Word, TablesCount, OneTableByte;
    var s := OneTable(size, hi, lo);
    OneTableWords(size, hi, lo);
    var o, l := Word(s, 20), Word(s, 24);
    assert FindFrom(s, 0) == if l >= 36 && o + l <= |s| then Some(Head(12, o, l)) else None;
  }

  function Misaligned(): (s: seq<Byte>)
    ensures s == OneTable(66, 0, 30)
  {
    OneTable(66, 0, 30)
  }

  lemma DirectorySum(s: seq<Byte>)
    requires |s| >= 28 && Sum(s, 28) == 0
    ensures Sum(s, 0) == Word(s, 0) + Word(s, 4) + Word(s, 8) + Word(s, 12) + Word(s, 16) + Word(s, 20) + Word(s, 24)
  {
    hide Sum, Word;
    SumStep(s, 24);
    SumStep(s, 20);
    SumStep(s, 16);
    SumStep(s, 12);
    SumStep(s, 8);
    SumStep(s, 4);
    SumStep(s, 0);
  }

  lemma MisalignedChecksum()
    ensures Checksum(Misaligned()) == 0x6866_61A6
  {
    hide Sum, Word, OneTable;
    var s := Misaligned();
    OneTableWords(66, 0, 30);
    assert forall k :: 28 <= k < |s| ==> s[k] == 0;
    SumOfZeros(s, 28);
    DirectorySum(s);
  }

  lemma SumStep(s: seq<Byte>, i: nat)
    requires i < |s|
    ensures Sum(s, i) == Word(s, i) + Sum(s, i + 4)
  {
  }

  /** Where all that is written is zero already, steps 1 to 3 change nothing. */
  lemma AllZeroEntered(s: seq<Byte>, h: Head)
    requires h.length >= 36 && h.off + h.length <= |s| && h.rec + 16 <= |s|
    requires forall k :: h.off <= k < h.off + h.length ==> s[k] == 0
    requires forall k :: h.rec + 4 <= k < h.rec + 8 ==> s[k] == 0
    ensures Entered(s, h) == s
  {
    hide Octet, Word, Sum, Put32, Cleared;
    forall k | 0 <= k < |s| ensures Cleared(s, h)[k] == s[k] {
      ClearedBytes(s, h, k);
    }
    assert Cleared(s, h) == s;
    SumOfZeros(s[h.off..h.off + h.length], 0);
    PutZero(s, h.rec + 4);
  }

  lemma PutZero(s: seq<Byte>, at: nat)
    requires at + 4 <= |s| && forall k :: at <= k < at + 4 ==> s[k] == 0
    ensures Put32(s, at, 0) == s
  {
    hide Word;
  }

  lemma MisalignedEntered()
    ensures Entered(Misaligned(), Head(12, 30, 36)) == Misaligned()
  {
    hide OneTable, Entered;
    AllZeroEntered(Misaligned(), Head(12, 30, 36));
  }

  lemma MisalignedAdjustment()
    ensures !Survives(0x494A_4E14, 30)
    ensures Adjustment(Misaligned()) == 0x494A_4E14
  {
    hide Misaligned, Checksum;
    MisalignedChecksum();
    assert Octet(0x494A_4E14, 0) == 0x49 && Octet(0x494A_4E14, 2) == 0x4E;
  }

  /** A font whose head table is two bytes off alignment and whose normalized checksum is wrong. */
  lemma MisalignedFontMissesConstant()
    ensures FindHead(Misaligned()) == Some(Head(12, 30, 36))
    ensures Checksum(Normalized(Misaligned())) != MAGIC
  {
    hide FindHead, Word, OneTable, Misaligned, Entered, Adjustment, Survives, Checksum, Normalized;
    OneTableHead(66, 0, 30);
    MisalignedEntered();
    MisalignedAdjustment();
    WholeFontChecksum(Misaligned());
  }

  /** Zero bytes at the end add nothing: a trailing partial word counts as if padded with zeros. */
  lemma {:induction false} PaddingAddsNothing(s: seq<Byte>, zeros: seq<Byte>, i: nat)
    requires forall k :: 0 <= k < |zeros| ==> zeros[k] == 0
    ensures Sum(s + zeros, i) == Sum(s, i)
    decreases |s| - i
  {
    var t := s + zeros;
    assert forall k: nat :: ByteAt(t, k) == ByteAt(s, k);
    if i < |s| {
      PaddingAddsNothing(s, zeros, i + 4);
    } else {
      SumOfZeros(t, i);
    }
  }

  /**
    What normalization writes: the sixteen timestamp bytes become zero, and besides them only the
    directory checksum and checksumAdjustment change.
   */
  lemma NormalizedBytes(s: seq<Byte>, k: nat)
    requires FindHead(s).Some? && k < |s|
    ensures var h := FindHead(s).value;
            && (h.off + 20 <= k < h.off + 36 && !(h.rec + 4 <= k < h.rec + 8) ==> Normalized(s)[k] == 0)
            && (!RunTime(h, k) ==> Normalized(s)[k] == s[k])
  {
    hide FindFrom, Octet, Word, Checksum, Cleared, Adjustment;
    FoundInBounds(s, 0);
    ClearedBytes(s, FindHead(s).value, k);
  }

  /** The directory entry is the checksum of the head table with checksumAdjustment taken as zero. */
  lemma DirectoryEntry(s: seq<Byte>)
    requires FindHead(s).Some? && EntryOutside(FindHead(s).value)
    ensures var h, n := FindHead(s).value, Normalized(s);
            && h.off + h.length <= |n| && h.length >= 36
            && Word(n, h.rec + 4) == Checksum(Put32(n[h.off..h.off + h.length], 8, 0))
  {
    hide Put32, FindFrom, Octet, Checksum, Cleared;
    FoundInBounds(s, 0);
    var h, n := FindHead(s).value, Normalized(s);
    var c := Cleared(s, h);
    var body, zeroed := n[h.off..h.off + h.length], c[h.off..h.off + h.length];
    var p := Put32(body, 8, 0);
    assert Word(p, 8) == 0;
    forall k | 0 <= k < h.length ensures p[k] == zeroed[k] {
      ClearedBytes(s, h, h.off + k);
      if !(8 <= k < 12) {
        assert body[k] == n[h.off + k] == Entered(s, h)[h.off + k] == c[h.off + k];
      }
    }
    assert p == zeroed;
    assert Word(n, h.rec + 4) == Word(Entered(s, h), h.rec + 4);
  }

  /** Positions normalization may change: the directory checksum, the adjustment, the timestamps. */
  predicate RunTime(h: Head, k: nat) {
    h.rec + 4 <= k < h.rec + 8 || h.off + 8 <= k < h.off + 12 || h.off + 20 <= k < h.off + 36
  }

  /** Two fonts equal outside the run-time fields of the first one's head table. */
  predicate SameButRunTime(s: seq<Byte>, t: seq<Byte>, h: Head) {
    |s| == |t| && forall k :: 0 <= k < |s| && !RunTime(h, k) ==> s[k] == t[k]
  }

  /** What the search for the head record reads: the table count, tags, and the found record's range. */
  predicate Searched(h: Head, k: nat) {
    k in {4, 5} || (12 <= k < h.rec + 4 && (k - 12) % 16 < 4) || h.rec + 8 <= k < h.rec + 16
  }

  /**
    The run-time fields overlap neither what the search reads nor, for the directory checksum, the
    head table. Any head table behind its own record is of this kind.
   */
  ghost predicate Separate(h: Head) {
    EntryOutside(h) && forall k :: RunTime(h, k) ==> !Searched(h, k)
  }

  lemma BehindItsRecordIsSeparate(s: seq<Byte>)
    requires FindHead(s).Some? && FindHead(s).value.off >= FindHead(s).value.rec + 16
    ensures Separate(FindHead(s).value)
  {
    FoundAtRecord(s, 0);
  }

  lemma {:induction false} FoundAtRecord(s: seq<Byte>, i: nat)
    ensures FindFrom(s, i).Some? ==> FindFrom(s, i).value.rec >= 12 && FindFrom(s, i).value.rec % 16 == 12
    decreases TablesCount(s) - i
  {
    if i < TablesCount(s) && 12 + i * 16 + 16 <= |s| {
      FoundAtRecord(s, i + 1);
    }
  }

  lemma {:induction false} SameDirectory(s: seq<Byte>, t: seq<Byte>, h: Head, i: nat)
    requires FindFrom(s, i) == Some(h) && SameButRunTime(s, t, h) && Separate(h)
    ensures FindFrom(t, i) == Some(h)
    decreases TablesCount(s) - i
  {
    FoundInBounds(s, i);
    var r := 12 + i * 16;
    SearchedAgree(s, t, h, i);
    hide Word, Separate, Searched, RunTime, EntryOutside;
    if s[r..r + 4] == TAG {
    } else {
      SameDirectory(s, t, h, i + 1);
    }
  }

  lemma SearchedAgree(s: seq<Byte>, t: seq<Byte>, h: Head, i: nat)
    requires 12 + i * 16 <= h.rec && h.rec + 16 <= |s| && SameButRunTime(s, t, h) && Separate(h)
    ensures var r := 12 + i * 16;
            && TablesCount(s) == TablesCount(t) && s[r..r + 4] == t[r..r + 4]
            && (h.rec == r ==> Word(s, r + 8) == Word(t, r + 8) && Word(s, r + 12) == Word(t, r + 12))
  {
    var r := 12 + i * 16;
    forall k | 0 <= k < |s| && Searched(h, k) ensures s[k] == t[k] {
      assert !RunTime(h, k);
    }
    assert Searched(h, 4) && Searched(h, 5);
    assert forall k :: r <= k < r + 4 ==> Searched(h, k);
    assert h.rec == r ==> forall k :: r + 8 <= k < r + 16 ==> Searched(h, k);
  }

  /**
    Reproducibility: fonts that differ only in the head timestamps, checksumAdjustment and the head
    directory checksum normalize to the same bytes.
   */
  lemma SameFontSameBytes(s: seq<Byte>, t: seq<Byte>)
    requires FindHead(s).Some? && Separate(FindHead(s).value)
    requires SameButRunTime(s, t, FindHead(s).value)
    ensures Normalized(s) == Normalized(t)
  {
    hide Put32, FindFrom, Octet, Checksum, Cleared, Word, Adjustment, Searched;
    var h := FindHead(s).value;
    FoundInBounds(s, 0);
    SameDirectory(s, t, h, 0);
    var c, d := Cleared(s, h), Cleared(t, h);
    forall k | 0 <= k < |s| && !(h.rec + 4 <= k < h.rec + 8) ensures c[k] == d[k] {
      ClearedBytes(s, h, k);
      ClearedBytes(t, h, k);
    }
    assert c[h.off..h.off + h.length] == d[h.off..h.off + h.length];
    PutSame(c, d, h.rec + 4, Checksum(c[h.off..h.off + h.length]));
  }

  /**
    Where the fields overlap the directory, a timestamp byte can decide whether there is a head at
    all: with the head table at offset 0, the timestamps lie over its own directory record.
   */
  lemma OverlapBreaksReproducibility()
    ensures var s, t := OneTable(36, 0, 0), OneTable(36, 1, 0);
            && FindHead(s) == Some(Head(12, 0, 36)) && SameButRunTime(s, t, Head(12, 0, 36))
            && Normalized(s) != Normalized(t)
  {
    hide FindFrom, Word, OneTable, Put32, Octet, Checksum, Cleared, Adjustment;
    var s, t, h := OneTable(36, 0, 0), OneTable(36, 1, 0), Head(12, 0, 36);
    OneTableHead(36, 0, 0);
    OneTableHead(36, 1, 0);
    ClearedBytes(s, h, 20);
    assert Normalized(s)[20] == 0 && t[20] == 1;
  }

  lemma PutSame(c: seq<Byte>, d: seq<Byte>, at: nat, v: int)
    requires |c| == |d| && at + 4 <= |c| && 0 <= v < TWO32
    requires forall k :: 0 <= k < |c| && !(at <= k < at + 4) ==> c[k] == d[k]
    ensures Put32(c, at, v) == Put32(d, at, v)
  {
  }

  /** Normalizing twice changes nothing more. */
  lemma Idempotent(s: seq<Byte>)
    requires FindHead(s).Some? ==> Separate(FindHead(s).value)
    ensures Normalized(Normalized(s)) == Normalized(s)
  {
    if FindHead(s).Some? {
      FoundInBounds(s, 0);
      var h, n := FindHead(s).value, Normalized(s);
      forall k | 0 <= k < |s| && !RunTime(h, k) ensures s[k] == n[k] {
        ClearedBytes(s, h, k);
      }
      SameFontSameBytes(s, n);
    }
  }
}
