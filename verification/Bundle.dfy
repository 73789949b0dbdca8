/** Release bundles: one file carrying every per-slot build of an application. */
module Bundle {
  import opened Bytes
  import opened Crc32

  const MAGIC: Bytes := [0x4F, 0x42, 0x42, 0x31]
  const FORMAT_MAJOR: Byte := 1
  const FORMAT_MINOR: Byte := 0
  const HEADER_LEN: nat := 16
  const ENTRY_LEN: nat := 16
  const MAX_VARIANTS: nat := 8

  datatype HostImage = HostImage(base: nat, bytes: Bytes)

  datatype Bundle = Bundle(chipFamily: Byte, images: seq<HostImage>)

  // ---- which images make a bundle ----------------------------------------

  /** A flashable image: word-aligned base, a nonzero number of whole words. */
  predicate Flashable(i: HostImage) {
    i.base < U32_LIMIT && i.base % 4 == 0 && |i.bytes| > 0 && |i.bytes| % 4 == 0
  }

  /** Two images occupy different addresses. */
  predicate Apart(a: HostImage, b: HostImage) {
    a.base + |a.bytes| <= b.base || b.base + |b.bytes| <= a.base
  }

  predicate Disjoint(s: seq<HostImage>) {
    forall i, j :: 0 <= i < j < |s| ==> Apart(s[i], s[j])
  }

  predicate Ascending(s: seq<HostImage>) {
    forall i, j :: 0 <= i < j < |s| ==> s[i].base <= s[j].base
  }

  /** Each image ends before the next begins. */
  predicate InOrder(s: seq<HostImage>) {
    forall i :: 0 <= i < |s| - 1 ==> s[i].base != s[i + 1].base && s[i].base + |s[i].bytes| <= s[i + 1].base
  }

  /** Stable insertion by base. */
  function Insert(x: HostImage, s: seq<HostImage>): (r: seq<HostImage>)
    ensures multiset(r) == multiset(s) + multiset{x} && |r| == |s| + 1
    decreases |s|
  {
    if |s| == 0 then [x]
    else if s[|s| - 1].base <= x.base then s + [x]
    else
      assert s == s[..|s| - 1] + [s[|s| - 1]];
      Insert(x, s[..|s| - 1]) + [s[|s| - 1]]
  }

  /** The images in ascending order of base. */
  function SortByBase(s: seq<HostImage>): (r: seq<HostImage>)
    ensures multiset(r) == multiset(s) && |r| == |s|
    decreases |s|
  {
    if |s| == 0 then []
    else
      assert s == s[..|s| - 1] + [s[|s| - 1]];
      Insert(s[|s| - 1], SortByBase(s[..|s| - 1]))
  }

  lemma MemberOf(a: seq<HostImage>, b: seq<HostImage>, x: HostImage)
    requires multiset(a) == multiset(b) && x in a
    ensures x in b
  {
    assert x in multiset(a);
  }

  lemma {:induction false} InsertAscending(x: HostImage, s: seq<HostImage>)
    requires Ascending(s)
    ensures Ascending(Insert(x, s))
    decreases |s|
  {
    if |s| > 0 && s[|s| - 1].base > x.base {
      var front, last := s[..|s| - 1], s[|s| - 1];
      InsertAscending(x, front);
      var r := Insert(x, front);
      forall i | 0 <= i < |r|
        ensures r[i].base <= last.base
      {
        assert r[i] in multiset(r);
        if r[i] != x {
          assert r[i] in front;
        }
      }
    }
  }

  lemma {:induction false} SortAscending(s: seq<HostImage>)
    ensures Ascending(SortByBase(s))
    decreases |s|
  {
    if |s| > 0 {
      SortAscending(s[..|s| - 1]);
      InsertAscending(s[|s| - 1], SortByBase(s[..|s| - 1]));
    }
  }

  lemma InsertLast(x: HostImage, s: seq<HostImage>)
    requires |s| == 0 || s[|s| - 1].base <= x.base
    ensures Insert(x, s) == s + [x]
  {
  }

  /** Sorting what is already in order changes nothing. */
  lemma {:induction false} SortedAlready(s: seq<HostImage>)
    requires Ascending(s)
    ensures SortByBase(s) == s
    decreases |s|
  {
    hide Insert, Ascending;
    if |s| > 0 {
      var front, last := s[..|s| - 1], s[|s| - 1];
      AscendingFront(s);
      SortedAlready(front);
      InsertLast(last, front);
      assert s == front + [last];
    }
  }

  lemma AscendingFront(s: seq<HostImage>)
    requires Ascending(s) && |s| > 0
    ensures var front, last := s[..|s| - 1], s[|s| - 1];
      Ascending(front) && (|front| > 0 ==> front[|front| - 1].base <= last.base)
  {
  }

  predicate ApartFromAll(x: HostImage, s: seq<HostImage>) { forall i :: 0 <= i < |s| ==> Apart(x, s[i]) }

  lemma {:induction false} InsertDisjoint(x: HostImage, s: seq<HostImage>)
    ensures Disjoint(Insert(x, s)) <==> Disjoint(s) && ApartFromAll(x, s)
    ensures forall y: HostImage :: ApartFromAll(y, Insert(x, s)) <==> ApartFromAll(y, s) && Apart(y, x)
    decreases |s|
  {
    if |s| > 0 && s[|s| - 1].base > x.base {
      var front, last := s[..|s| - 1], s[|s| - 1];
      InsertDisjoint(x, front);
      SnocDisjoint(front, last);
      SnocDisjoint(Insert(x, front), last);
      assert s == front + [last];
    } else {
      SnocDisjoint(s, x);
      assert |s| == 0 ==> [x] == s + [x];
    }
  }

  lemma SnocDisjoint(s: seq<HostImage>, x: HostImage)
    ensures Disjoint(s + [x]) <==> Disjoint(s) && ApartFromAll(x, s)
    ensures forall y: HostImage :: ApartFromAll(y, s + [x]) <==> ApartFromAll(y, s) && Apart(y, x)
  {
    var t := s + [x];
    if Disjoint(t) {
      forall i | 0 <= i < |s|
        ensures Apart(x, s[i])
      {
        assert Apart(t[i], t[|s|]);
      }
      forall i, j | 0 <= i < j < |s|
        ensures Apart(s[i], s[j])
      {
        assert Apart(t[i], t[j]);
      }
    }
    forall y: HostImage
      ensures ApartFromAll(y, t) <==> ApartFromAll(y, s) && Apart(y, x)
    {
      if ApartFromAll(y, t) {
        assert t[|s|] == x;
        forall i | 0 <= i < |s|
          ensures Apart(y, s[i])
        {
          assert t[i] == s[i];
        }
      }
    }
  }

  lemma {:induction false} SortDisjoint(s: seq<HostImage>)
    ensures Disjoint(SortByBase(s)) <==> Disjoint(s)
    ensures forall y: HostImage :: ApartFromAll(y, SortByBase(s)) <==> ApartFromAll(y, s)
    decreases |s|
  {
    hide ApartFromAll, Disjoint, Apart, Insert;
    if |s| > 0 {
      var front, last := s[..|s| - 1], s[|s| - 1];
      SortDisjoint(front);
      InsertDisjoint(last, SortByBase(front));
      SnocDisjoint(front, last);
      assert s == front + [last];
    }
  }

  /** In ascending order, checking neighbours is enough. */
  lemma OrderIsDisjointness(s: seq<HostImage>)
    requires Ascending(s) && forall i :: 0 <= i < |s| ==> |s[i].bytes| > 0
    ensures InOrder(s) <==> Disjoint(s)
  {
    if InOrder(s) {
      forall i, j | 0 <= i < j < |s|
        ensures Apart(s[i], s[j])
      {
        assert s[i].base + |s[i].bytes| <= s[i + 1].base;
      }
    } else if Disjoint(s) {
      forall i | 0 <= i < |s| - 1
        ensures s[i].base != s[i + 1].base && s[i].base + |s[i].bytes| <= s[i + 1].base
      {
        assert Apart(s[i], s[i + 1]);
      }
    }
  }

  function NewBundle(family: Byte, images: seq<HostImage>): Option<Bundle> {
    if |images| == 0 || |images| > MAX_VARIANTS then None
    else if exists i :: 0 <= i < |images| && !Flashable(images[i]) then None
    else if !InOrder(SortByBase(images)) then None
    else Some(Bundle(family, SortByBase(images)))
  }

  /** A bundle is made exactly from one to eight flashable images that overlap nowhere; it holds those
      images and no others, ascending by base. */
  lemma NewBundleExactly(family: Byte, images: seq<HostImage>)
    ensures NewBundle(family, images).Some? <==>
      1 <= |images| <= MAX_VARIANTS && (forall i :: 0 <= i < |images| ==> Flashable(images[i])) && Disjoint(images)
    ensures NewBundle(family, images).Some? ==>
      var b := NewBundle(family, images).value;
      b.chipFamily == family && multiset(b.images) == multiset(images) && Ascending(b.images) && InOrder(b.images)
  {
    var s := SortByBase(images);
    SortAscending(images);
    SortDisjoint(images);
    if forall i :: 0 <= i < |images| ==> Flashable(images[i]) {
      forall i | 0 <= i < |s|
        ensures |s[i].bytes| > 0
      {
        MemberOf(s, images, s[i]);
      }
      OrderIsDisjointness(s);
    }
  }

  // ---- the file format ---------------------------------------------------

  function Entry(i: HostImage, offset: nat): (e: Bytes)
    requires i.base < U32_LIMIT
    ensures |e| == ENTRY_LEN
  {
    PutNat(i.base) + PutNat(Low32(|i.bytes|)) + PutWord(Crc(i.bytes)) + PutNat(Low32(offset))
  }

  predicate Encodable(b: Bundle) {
    |b.images| <= MAX_VARIANTS && forall i :: 0 <= i < |b.images| ==> b.images[i].base < U32_LIMIT
  }

  /** Where the payload of variant `k` begins. */
  function Offset(b: Bundle, k: nat): nat
    requires k <= |b.images|
  {
    if k == 0 then HEADER_LEN + |b.images| * ENTRY_LEN else Offset(b, k - 1) + |b.images[k - 1].bytes|
  }

  function Table(b: Bundle, k: nat): (t: Bytes)
    requires Encodable(b) && k <= |b.images|
    ensures |t| == k * ENTRY_LEN
  {
    if k == 0 then [] else Table(b, k - 1) + Entry(b.images[k - 1], Offset(b, k - 1))
  }

  function Payloads(b: Bundle, k: nat): (p: Bytes)
    requires k <= |b.images|
    ensures HEADER_LEN + |b.images| * ENTRY_LEN + |p| == Offset(b, k)
  {
    if k == 0 then [] else Payloads(b, k - 1) + b.images[k - 1].bytes
  }

  /** The file with this checksum field. */
  function Layout(b: Bundle, checksum: Bytes): (f: Bytes)
    requires Encodable(b) && |checksum| == 4
    ensures |f| == Offset(b, |b.images|)
  {
    MAGIC + [FORMAT_MAJOR, FORMAT_MINOR, b.chipFamily, ByteOf(|b.images|)] + checksum + PutNat(0)
    + Table(b, |b.images|) + Payloads(b, |b.images|)
  }

  function Encode(b: Bundle): Bytes
    requires Encodable(b)
  {
    Layout(b, PutWord(Crc(Layout(b, [0, 0, 0, 0]))))
  }

  function Zeroed(raw: Bytes): (z: Bytes)
    requires |raw| >= HEADER_LEN
    ensures |z| == |raw|
  {
    raw[..8] + [0, 0, 0, 0] + raw[12..]
  }

  predicate ChecksumOk(raw: Bytes)
    requires |raw| >= HEADER_LEN
  {
    LeWord(raw[8..12]) == Crc(Zeroed(raw))
  }

  /** The checks on the header and the whole-file checksum, in order. */
  predicate HeaderOk(raw: Bytes) {
    && |raw| >= HEADER_LEN
    && raw[..4] == MAGIC
    && raw[4] == FORMAT_MAJOR
    && 0 < Digit(raw[7]) <= MAX_VARIANTS
    && LeNat(raw[12..16]) == 0
    && ChecksumOk(raw)
    && |raw| >= HEADER_LEN + Digit(raw[7]) * ENTRY_LEN
  }

  /** Variant `k` of the table, if its entry and payload are in order. */
  function Variant(raw: Bytes, count: nat, k: nat): Option<HostImage>
    requires k < count && HEADER_LEN + count * ENTRY_LEN <= |raw|
  {
    var at := HEADER_LEN + k * ENTRY_LEN;
    var base, len, crc, off :=
      LeNat(raw[at..at + 4]), LeNat(raw[at + 4..at + 8]), LeWord(raw[at + 8..at + 12]), LeNat(raw[at + 12..at + 16]);
    if len == 0 || len % 4 != 0 then None
    else if base % 4 != 0 then None
    else if off < HEADER_LEN + count * ENTRY_LEN || off + len > |raw| then None
    else if Crc(raw[off..off + len]) != crc then None
    else Some(HostImage(base, raw[off..off + len]))
  }

  /** The first `k` variants, if all are in order. */
  function Variants(raw: Bytes, count: nat, k: nat): (r: Option<seq<HostImage>>)
    requires k <= count && HEADER_LEN + count * ENTRY_LEN <= |raw|
    ensures r.Some? ==> |r.value| == k
  {
    if k == 0 then Some([])
    else
      match Variants(raw, count, k - 1)
      case None => None
      case Some(front) =>
        match Variant(raw, count, k - 1)
        case None => None
        case Some(i) => Some(front + [i])
  }

  function ParseBundle(raw: Bytes): Option<Bundle> {
    if !HeaderOk(raw) then None
    else
      match Variants(raw, Digit(raw[7]), Digit(raw[7]))
      case None => None
      case Some(images) => NewBundle(raw[6], images)
  }

  // ---- one changed byte --------------------------------------------------

  /** Changing any one byte of any file that parses makes one that does not. */
  lemma ChangedByteRejected(raw: Bytes, i: nat, x: Byte)
    requires ParseBundle(raw).Some? && i < |raw| && x != raw[i]
    ensures ParseBundle(raw[i := x]).None?
  {
    hide LeNat, Digit, Variants, NewBundle, ChecksumOk;
    ChecksumNotices(raw, i, x);
  }

  lemma ChecksumNotices(raw: Bytes, i: nat, x: Byte)
    requires |raw| >= HEADER_LEN && ChecksumOk(raw) && i < |raw| && x != raw[i]
    ensures !ChecksumOk(raw[i := x])
  {
    hide Crc, LeWord;
    if 8 <= i < 12 {
      FieldNotices(raw, i, x);
      assert Zeroed(raw[i := x]) == Zeroed(raw);
    } else {
      ContentNotices(raw, i, x);
      assert raw[i := x][8..12] == raw[8..12];
    }
  }

  lemma FieldNotices(raw: Bytes, i: nat, x: Byte)
    requires |raw| >= HEADER_LEN && 8 <= i < 12 && x != raw[i]
    ensures LeWord(raw[i := x][8..12]) != LeWord(raw[8..12])
  {
    hide LeWord, PutWord;
    PutWordOfLeWord(raw[8..12]);
    PutWordOfLeWord(raw[i := x][8..12]);
    assert raw[i := x][8..12][i - 8] != raw[8..12][i - 8];
  }

  lemma ContentNotices(raw: Bytes, i: nat, x: Byte)
    requires |raw| >= HEADER_LEN && i < |raw| && !(8 <= i < 12) && x != raw[i]
    ensures Crc(Zeroed(raw[i := x])) != Crc(Zeroed(raw))
  {
    hide Crc;
    ZeroedChange(raw, i, x);
    var z := Zeroed(raw);
    assert z == z[..i] + [z[i]] + z[i + 1..];
    BurstDetected(z[..i], [z[i]], [x], z[i + 1..]);
  }

  lemma ZeroedChange(raw: Bytes, i: nat, x: Byte)
    requires |raw| >= HEADER_LEN && i < |raw| && !(8 <= i < 12)
    ensures Zeroed(raw)[i] == raw[i]
    ensures Zeroed(raw[i := x]) == Zeroed(raw)[..i] + [x] + Zeroed(raw)[i + 1..]
  {
  }

  // ---- the round trip ----------------------------------------------------

  lemma {:induction false} TableEntry(b: Bundle, n: nat, k: nat)
    requires Encodable(b) && k < n <= |b.images|
    ensures Table(b, n)[k * ENTRY_LEN..(k + 1) * ENTRY_LEN] == Entry(b.images[k], Offset(b, k))
    decreases n
  {
    hide Entry, Offset;
    if k < n - 1 {
      TableEntry(b, n - 1, k);
      assert Table(b, n)[k * ENTRY_LEN..(k + 1) * ENTRY_LEN] == Table(b, n - 1)[k * ENTRY_LEN..(k + 1) * ENTRY_LEN];
    }
  }

  lemma {:induction false} OffsetGrows(b: Bundle, k: nat, n: nat)
    requires k < n <= |b.images|
    ensures HEADER_LEN + |b.images| * ENTRY_LEN <= Offset(b, k)
    ensures Offset(b, k) + |b.images[k].bytes| <= Offset(b, n)
    decreases n
  {
    if k < n - 1 {
      OffsetGrows(b, k, n - 1);
    } else if k > 0 {
      OffsetGrows(b, k - 1, k);
    }
  }

  lemma {:induction false} Payload(b: Bundle, n: nat, k: nat)
    requires k < n <= |b.images|
    ensures HEADER_LEN + |b.images| * ENTRY_LEN <= Offset(b, k)
    ensures Offset(b, k) + |b.images[k].bytes| <= Offset(b, n)
    ensures var at := Offset(b, k) - HEADER_LEN - |b.images| * ENTRY_LEN;
      Payloads(b, n)[at..at + |b.images[k].bytes|] == b.images[k].bytes
    decreases n
  {
    OffsetGrows(b, k, n);
    var at := Offset(b, k) - HEADER_LEN - |b.images| * ENTRY_LEN;
    if k < n - 1 {
      Payload(b, n - 1, k);
      assert Payloads(b, n)[at..at + |b.images[k].bytes|] == Payloads(b, n - 1)[at..at + |b.images[k].bytes|];
    }
  }

  function Concat(magic: Bytes, head: Bytes, checksum: Bytes, zero: Bytes, table: Bytes, payloads: Bytes): Bytes {
    magic + head + checksum + zero + table + payloads
  }

  lemma ConcatSlices(magic: Bytes, head: Bytes, checksum: Bytes, zero: Bytes, table: Bytes, payloads: Bytes)
    requires |magic| == |head| == |checksum| == |zero| == 4
    ensures var f := Concat(magic, head, checksum, zero, table, payloads);
      && |f| == HEADER_LEN + |table| + |payloads|
      && f[..4] == magic && f[4..8] == head && f[8..12] == checksum && f[12..16] == zero
      && f[HEADER_LEN..HEADER_LEN + |table|] == table && f[HEADER_LEN + |table|..] == payloads
      && Zeroed(f) == Concat(magic, head, [0, 0, 0, 0], zero, table, payloads)
  {
  }

  lemma SubSlice(f: Bytes, lo: nat, hi: nat, i: nat, j: nat)
    requires lo <= hi <= |f| && i <= j && lo + j <= hi
    ensures f[lo..hi][i..j] == f[lo + i..lo + j]
  {
    var a, b := f[lo..hi][i..j], f[lo + i..lo + j];
    forall k: nat | k < |a|
      ensures a[k] == b[k]
    {
    }
  }

  /** Header, table and payloads of an encoded file are where the parser looks. */
  lemma EncodedParts(b: Bundle)
    requires Encodable(b)
    ensures var f, n := Encode(b), |b.images|;
      && |f| == Offset(b, n) >= HEADER_LEN + n * ENTRY_LEN
      && f[..4] == MAGIC && f[4..8] == [FORMAT_MAJOR, FORMAT_MINOR, b.chipFamily, ByteOf(n)]
      && f[12..16] == PutNat(0) && ChecksumOk(f)
      && f[HEADER_LEN..HEADER_LEN + n * ENTRY_LEN] == Table(b, n)
      && f[HEADER_LEN + n * ENTRY_LEN..] == Payloads(b, n)
  {
    hide Crc, LeWord, PutWord, PutNat, Table, Payloads, Offset;
    var n := |b.images|;
    var head := [FORMAT_MAJOR, FORMAT_MINOR, b.chipFamily, ByteOf(n)];
    var crc := Crc(Layout(b, [0, 0, 0, 0]));
    ConcatSlices(MAGIC, head, PutWord(crc), PutNat(0), Table(b, n), Payloads(b, n));
    WordRoundTrip(crc);
    assert Encode(b) == Concat(MAGIC, head, PutWord(crc), PutNat(0), Table(b, n), Payloads(b, n));
    assert Layout(b, [0, 0, 0, 0]) == Concat(MAGIC, head, [0, 0, 0, 0], PutNat(0), Table(b, n), Payloads(b, n));
  }

  lemma EncodedHeader(b: Bundle)
    requires Encodable(b) && |b.images| > 0
    ensures HeaderOk(Encode(b)) && Digit(Encode(b)[7]) == |b.images| && Encode(b)[6] == b.chipFamily
  {
    hide Crc, LeWord, PutWord, PutNat, Table, Payloads, Offset, Encode, ChecksumOk, LeNat, Digit;
    EncodedParts(b);
    var f := Encode(b);
    ByteOfNat(|b.images|);
    NatRoundTrip(0);
    assert f[4] == f[4..8][0] && f[6] == f[4..8][2] && f[7] == f[4..8][3];
  }

  lemma FourFields(a: Bytes, b: Bytes, c: Bytes, d: Bytes)
    requires |a| == |b| == |c| == |d| == 4
    ensures var e := a + b + c + d; e[0..4] == a && e[4..8] == b && e[8..12] == c && e[12..16] == d
  {
  }

  lemma EntryFields(i: HostImage, offset: nat)
    requires i.base < U32_LIMIT && |i.bytes| < U32_LIMIT && offset < U32_LIMIT
    ensures var e := Entry(i, offset);
      && LeNat(e[0..4]) == i.base && LeNat(e[4..8]) == |i.bytes| && LeNat(e[12..16]) == offset
      && EntryCrc(e, Crc(i.bytes))
  {
    hide Crc, LeWord, PutWord, PutNat, LeNat;
    var e := Entry(i, offset);
    FourFields(PutNat(i.base), PutNat(|i.bytes|), PutWord(Crc(i.bytes)), PutNat(offset));
    NatRoundTrip(i.base);
    NatRoundTrip(|i.bytes|);
    NatRoundTrip(offset);
    WordRoundTrip(Crc(i.bytes));
  }

  predicate EntryCrc(e: Bytes, crc: bv32)
    requires |e| == ENTRY_LEN
  {
    LeWord(e[8..12]) == crc
  }

  lemma VariantFromParts(raw: Bytes, count: nat, k: nat, i: HostImage, offset: nat)
    requires k < count && HEADER_LEN + count * ENTRY_LEN <= |raw| < U32_LIMIT && Flashable(i)
    requires HEADER_LEN + count * ENTRY_LEN <= offset && offset + |i.bytes| <= |raw|
    requires raw[HEADER_LEN + k * ENTRY_LEN..HEADER_LEN + (k + 1) * ENTRY_LEN] == Entry(i, offset)
    requires raw[offset..offset + |i.bytes|] == i.bytes
    ensures Variant(raw, count, k) == Some(i)
  {
    hide Crc, LeWord, LeNat, Entry;
    EntryFields(i, offset);
    var at := HEADER_LEN + k * ENTRY_LEN;
    var e := raw[at..at + ENTRY_LEN];
    assert e == Entry(i, offset);
    SubSlice(raw, at, at + ENTRY_LEN, 0, 4);
    SubSlice(raw, at, at + ENTRY_LEN, 4, 8);
    SubSlice(raw, at, at + ENTRY_LEN, 8, 12);
    SubSlice(raw, at, at + ENTRY_LEN, 12, 16);
  }

  lemma EncodedVariant(b: Bundle, k: nat)
    requires Encodable(b) && k < |b.images| && Flashable(b.images[k]) && |Encode(b)| < U32_LIMIT
    ensures HEADER_LEN + |b.images| * ENTRY_LEN <= |Encode(b)|
    ensures Variant(Encode(b), |b.images|, k) == Some(b.images[k])
  {
    hide Crc, Table, Payloads, Offset, Encode, ChecksumOk, Entry, Variant, Flashable;
    EncodedParts(b);
    var f, n, start := Encode(b), |b.images|, HEADER_LEN + |b.images| * ENTRY_LEN;
    TableEntry(b, n, k);
    Payload(b, n, k);
    SubSlice(f, HEADER_LEN, start, k * ENTRY_LEN, (k + 1) * ENTRY_LEN);
    SubSlice(f, start, |f|, Offset(b, k) - start, Offset(b, k) - start + |b.images[k].bytes|);
    assert f[start..] == f[start..|f|];
    VariantFromParts(f, n, k, b.images[k], Offset(b, k));
  }

  lemma {:induction false} EncodedVariants(b: Bundle, k: nat)
    requires Encodable(b) && k <= |b.images| && |Encode(b)| < U32_LIMIT
    requires forall i :: 0 <= i < |b.images| ==> Flashable(b.images[i])
    ensures HEADER_LEN + |b.images| * ENTRY_LEN <= |Encode(b)|
    ensures Variants(Encode(b), |b.images|, k) == Some(b.images[..k])
    decreases k
  {
    hide Encode, Variant, Flashable;
    EncodedSize(b);
    if k > 0 {
      EncodedVariants(b, k - 1);
      EncodedVariant(b, k - 1);
      assert b.images[..k - 1] + [b.images[k - 1]] == b.images[..k];
    }
  }

  lemma EncodedSize(b: Bundle)
    requires Encodable(b)
    ensures HEADER_LEN + |b.images| * ENTRY_LEN <= |Encode(b)|
  {
    EncodedParts(b);
  }

  lemma MadeBundle(family: Byte, images: seq<HostImage>)
    requires NewBundle(family, images).Some?
    ensures var b := NewBundle(family, images).value;
      && Encodable(b) && |b.images| > 0 && (forall i :: 0 <= i < |b.images| ==> Flashable(b.images[i]))
      && NewBundle(b.chipFamily, b.images) == Some(b)
  {
    var b := NewBundle(family, images).value;
    SortAscending(images);
    SortedAlready(b.images);
    forall i | 0 <= i < |b.images|
      ensures Flashable(b.images[i])
    {
      MemberOf(b.images, images, b.images[i]);
    }
  }

  /** Every bundle that can be made and whose file stays under 2^32 bytes reads back as itself. */
  lemma ParseOfEncode(family: Byte, images: seq<HostImage>)
    requires NewBundle(family, images).Some?
    ensures Encodable(NewBundle(family, images).value)
    ensures var b := NewBundle(family, images).value; |Encode(b)| < U32_LIMIT ==> ParseBundle(Encode(b)) == Some(b)
  {
    hide Encode, Variants, NewBundle, HeaderOk, Flashable, Digit;
    MadeBundle(family, images);
    var b := NewBundle(family, images).value;
    if |Encode(b)| < U32_LIMIT {
      EncodedHeader(b);
      EncodedVariants(b, |b.images|);
      assert b.images[..|b.images|] == b.images;
    }
  }

  // ---- the tool's own loops ----------------------------------------------

  method AllFlashable(images: seq<HostImage>) returns (ok: bool)
    ensures ok <==> forall i :: 0 <= i < |images| ==> Flashable(images[i])
  {
    hide Flashable;
    var i := 0;
    while i < |images|
      invariant 0 <= i <= |images|
      invariant forall j :: 0 <= j < i ==> Flashable(images[j])
    {
      if !Flashable(images[i]) {
        return false;
      }
      i := i + 1;
    }
    ok := true;
  }

  method Ordered(sorted: seq<HostImage>) returns (ok: bool)
    requires |sorted| > 0
    ensures ok == InOrder(sorted)
  {
    var i := 0;
    while i + 1 < |sorted|
      invariant 0 <= i < |sorted|
      invariant forall j :: 0 <= j < i ==>
        sorted[j].base != sorted[j + 1].base && sorted[j].base + |sorted[j].bytes| <= sorted[j + 1].base
    {
      if sorted[i].base == sorted[i + 1].base || sorted[i].base + |sorted[i].bytes| > sorted[i + 1].base {
        return false;
      }
      i := i + 1;
    }
    ok := true;
  }

  /** Check every image, sort, check the neighbours. */
  method Create(family: Byte, images: seq<HostImage>) returns (r: Option<Bundle>)
    ensures r == NewBundle(family, images)
  {
    hide Flashable, InOrder;
    if |images| == 0 || |images| > MAX_VARIANTS {
      return None;
    }
    var ok := AllFlashable(images);
    if !ok {
      return None;
    }
    var sorted := SortByBase(images);
    ok := Ordered(sorted);
    if !ok {
      return None;
    }
    r := Some(Bundle(family, sorted));
  }

  method PushTable(b: Bundle, header: Bytes) returns (out: Bytes)
    requires Encodable(b)
    ensures out == header + Table(b, |b.images|)
  {
    hide Entry;
    out := header;
    var offset := Low32(HEADER_LEN + |b.images| * ENTRY_LEN);
    var k := 0;
    assert header + Table(b, 0) == header;
    while k < |b.images|
      invariant 0 <= k <= |b.images|
      invariant out == header + Table(b, k) && offset == Low32(Offset(b, k))
    {
      EntryLow(b.images[k], Offset(b, k));
      assert header + Table(b, k + 1) == header + Table(b, k) + Entry(b.images[k], Offset(b, k));
      out := out + Entry(b.images[k], offset);
      offset := Low32(offset + Low32(|b.images[k].bytes|));
      k := k + 1;
    }
  }

  method PushPayloads(b: Bundle, front: Bytes) returns (out: Bytes)
    ensures out == front + Payloads(b, |b.images|)
  {
    out := front;
    var k := 0;
    assert front + Payloads(b, 0) == front;
    while k < |b.images|
      invariant 0 <= k <= |b.images|
      invariant out == front + Payloads(b, k)
    {
      assert front + Payloads(b, k + 1) == front + Payloads(b, k) + b.images[k].bytes;
      out := out + b.images[k].bytes;
      k := k + 1;
    }
  }

  /** Push header, table and payloads with a zero checksum, then patch the checksum in. */
  method EncodeFile(b: Bundle) returns (out: Bytes)
    requires Encodable(b)
    ensures out == Encode(b)
  {
    hide Update, PutWord, PutNat, Table, Payloads, Offset, Layout;
    out := MAGIC + [FORMAT_MAJOR, FORMAT_MINOR, b.chipFamily, ByteOf(|b.images|)] + [0, 0, 0, 0] + PutNat(0);
    out := PushTable(b, out);
    out := PushPayloads(b, out);
    LayoutSplit(b);
    var crc := TableUpdate(INIT, out);
    out := out[..8] + PutWord(Final(crc)) + out[12..];
  }

  lemma LayoutSplit(b: Bundle)
    requires Encodable(b)
    ensures var head := MAGIC + [FORMAT_MAJOR, FORMAT_MINOR, b.chipFamily, ByteOf(|b.images|)];
      && Layout(b, [0, 0, 0, 0]) == head + [0, 0, 0, 0] + PutNat(0) + Table(b, |b.images|) + Payloads(b, |b.images|)
      && (forall cs: Bytes :: |cs| == 4 ==>
            Layout(b, cs) == Layout(b, [0, 0, 0, 0])[..8] + cs + Layout(b, [0, 0, 0, 0])[12..])
  {
    hide PutNat, Table, Payloads, Offset;
    forall cs: Bytes | |cs| == 4
      ensures Layout(b, cs) == Layout(b, [0, 0, 0, 0])[..8] + cs + Layout(b, [0, 0, 0, 0])[12..]
    {
    }
  }

  lemma EntryLow(i: HostImage, offset: nat)
    requires i.base < U32_LIMIT
    ensures Entry(i, Low32(offset)) == Entry(i, offset)
  {
    hide Crc, PutWord, PutNat;
  }

  /** Check the header and the checksum, then each variant in turn. */
  method ParseFile(raw: Bytes) returns (r: Option<Bundle>)
    ensures r == ParseBundle(raw)
  {
    hide LeNat, Digit, Variant, NewBundle, ChecksumOk;
    if |raw| < HEADER_LEN || raw[..4] != MAGIC || raw[4] != FORMAT_MAJOR {
      return None;
    }
    var count := Digit(raw[7]);
    if count == 0 || count > MAX_VARIANTS || LeNat(raw[12..16]) != 0 {
      return None;
    }
    var stated := CheckFile(raw);
    if !stated || |raw| < HEADER_LEN + count * ENTRY_LEN {
      return None;
    }
    var images: seq<HostImage> := [];
    var k := 0;
    while k < count
      invariant 0 <= k <= count && HeaderOk(raw) && count == Digit(raw[7])
      invariant Variants(raw, count, k) == Some(images)
    {
      var i := ReadVariant(raw, count, k);
      if i.None? {
        NoneStays(raw, count, k + 1, count);
        return None;
      }
      images := images + [i.value];
      k := k + 1;
    }
    r := Create(raw[6], images);
  }

  lemma {:induction false} NoneStays(raw: Bytes, count: nat, k: nat, n: nat)
    requires k <= n <= count && HEADER_LEN + count * ENTRY_LEN <= |raw| && Variants(raw, count, k).None?
    ensures Variants(raw, count, n).None?
    decreases n
  {
    hide Variant;
    if k < n {
      NoneStays(raw, count, k, n - 1);
    }
  }

  method CheckFile(raw: Bytes) returns (ok: bool)
    requires |raw| >= HEADER_LEN
    ensures ok == ChecksumOk(raw)
  {
    hide LeWord;
    var crc := TableUpdate(INIT, raw[..8] + [0, 0, 0, 0] + raw[12..]);
    ok := LeWord(raw[8..12]) == Final(crc);
  }

  method ReadVariant(raw: Bytes, count: nat, k: nat) returns (i: Option<HostImage>)
    requires k < count && HEADER_LEN + count * ENTRY_LEN <= |raw|
    ensures i == Variant(raw, count, k)
  {
    hide LeNat, LeWord;
    var at := HEADER_LEN + k * ENTRY_LEN;
    var base, len, stated, off :=
      LeNat(raw[at..at + 4]), LeNat(raw[at + 4..at + 8]), LeWord(raw[at + 8..at + 12]), LeNat(raw[at + 12..at + 16]);
    if len == 0 || len % 4 != 0 || base % 4 != 0 {
      return None;
    }
    if off < HEADER_LEN + count * ENTRY_LEN || off + len > |raw| {
      return None;
    }
    var crc := TableUpdate(INIT, raw[off..off + len]);
    if Final(crc) != stated {
      return None;
    }
    i := Some(HostImage(base, raw[off..off + len]));
  }
}
