/**
 The page index: page number to content identifier, and its canonical byte form.
 */
module PageIndex {
  import opened Bytes
  import opened Listings

  const PAGES: nat := 0x1_0000_0000
  const CID_SIZE: nat := 32
  const ENTRY_SIZE: nat := 36

  type Cid = seq<byte>

  /** Page numbers fit 32 bits and identifiers have 32 bytes. */
  predicate IsIndex(m: map<nat, Cid>)
  {
    forall p :: p in m ==> p < PAGES && |m[p]| == CID_SIZE
  }

  datatype Result<T> = Ok(value: T) | SerializationError

  // ----- four-byte little-endian numbers -----

  function Le4(n: nat): (r: seq<byte>)
    ensures |r| == 4
  {
    [n % 256, n / 0x100 % 256, n / 0x1_0000 % 256, n / 0x100_0000 % 256]
  }

  function FromLe4(b: seq<byte>): (n: nat)
    requires |b| == 4
    ensures n < PAGES
  {
    var b0: nat, b1: nat, b2: nat, b3: nat := b[0], b[1], b[2], b[3];
    b0 + 0x100 * b1 + 0x1_0000 * b2 + 0x100_0000 * b3
  }

  /** The number whose digits to base 256, least significant first, are the bytes. */
  function LittleEndian(b: seq<byte>): nat
  {
    if |b| == 0 then 0 else b[0] as nat + 256 * LittleEndian(b[1..])
  }

  lemma FromLe4IsLittleEndian(b: seq<byte>)
    requires |b| == 4
    ensures FromLe4(b) == LittleEndian(b)
  {
    assert b[1..][1..] == b[2..] && b[2..][1..] == b[3..] && b[3..][1..] == [];
    assert LittleEndian(b[3..]) == b[3];
    assert LittleEndian(b[2..]) == b[2] + 256 * LittleEndian(b[3..]);
    assert LittleEndian(b[1..]) == b[1] + 256 * LittleEndian(b[2..]);
  }

  lemma Le4IsLittleEndian(n: nat)
    ensures LittleEndian(Le4(n)) == n % PAGES
  {
    Le4RoundTrip(n);
    FromLe4IsLittleEndian(Le4(n));
  }

  lemma Le4RoundTrip(n: nat)
    ensures FromLe4(Le4(n)) == n % PAGES
  {
    var a, b, c := n / 0x100, n / 0x1_0000, n / 0x100_0000;
    Quotients(n);
    Digits(n, a, b, c, c / 0x100);
    Remainder(n, FromLe4(Le4(n)), c / 0x100);
  }

  lemma Quotients(n: nat)
    ensures n / 0x1_0000 == n / 0x100 / 0x100 && n / 0x100_0000 == n / 0x1_0000 / 0x100
  {
  }

  lemma Digits(n: nat, a: nat, b: nat, c: nat, d: nat)
    requires a == n / 0x100 && b == a / 0x100 && c == b / 0x100 && d == c / 0x100
    ensures n == n % 256 + 0x100 * (a % 256) + 0x1_0000 * (b % 256) + 0x100_0000 * (c % 256) + PAGES * d
  {
  }

  lemma Remainder(n: nat, r: nat, d: nat)
    requires r < PAGES && n == r + PAGES * d
    ensures n % PAGES == r
  {
  }

  // ----- the byte form of a map -----

  function Entries(m: map<nat, Cid>, ks: seq<nat>): seq<byte>
    requires forall p :: p in ks ==> p in m
  {
    if |ks| == 0 then [] else
      var k := |ks| - 1;
      Entries(m, ks[..k]) + Le4(ks[k]) + m[ks[k]]
  }

  lemma {:induction false} EntriesLength(m: map<nat, Cid>, ks: seq<nat>)
    requires IsIndex(m) && forall p :: p in ks ==> p in m
    ensures |Entries(m, ks)| == ENTRY_SIZE * |ks|
  {
    if |ks| > 0 { EntriesLength(m, ks[..|ks| - 1]); }
  }

  /** The bytes given by listing the pages in order; the count is stored modulo 2^32. */
  ghost predicate IsForm(b: seq<byte>, m: map<nat, Cid>)
  {
    forall ks :: Listing(ks, m.Keys) ==> b == Le4(|m|) + Entries(m, ks)
  }

  lemma FormExists(m: map<nat, Cid>)
    ensures IsForm(Le4(|m|) + Entries(m, Listed(m.Keys)), m)
  {
    forall ks | Listing(ks, m.Keys) ensures ks == Listed(m.Keys) { ListingUnique(ks, Listed(m.Keys), m.Keys); }
  }

  /** The canonical bytes. */
  ghost function Serialized(m: map<nat, Cid>): (b: seq<byte>)
    ensures IsForm(b, m)
  {
    FormExists(m);
    var b :| IsForm(b, m);
    b
  }

  // ----- serialise -----

  method Emit(entries: map<nat, Cid>, ks: seq<nat>) returns (buf: seq<byte>)
    requires forall p :: p in ks ==> p in entries
    ensures buf == Le4(|entries|) + Entries(entries, ks)
  {
    buf := Le4(|entries|);
    for i := 0 to |ks|
      invariant buf == Le4(|entries|) + Entries(entries, ks[..i])
    {
      buf := buf + Le4(ks[i]) + entries[ks[i]];
      assert ks[..i + 1][..i] == ks[..i];
    }
    assert ks[..|ks|] == ks;
  }

  /** The bytes depend on the map alone, not on the order in which its entries are found. */
  method Serialize(entries: map<nat, Cid>) returns (buf: seq<byte>)
    ensures buf == Serialized(entries)
  {
    var ks := InOrder(entries.Keys);
    buf := Emit(entries, ks);
  }

  // ----- deserialise -----

  /** The map described by `count` entries; a page listed twice keeps its last identifier. */
  function Parsed(data: seq<byte>, count: nat): (m: map<nat, Cid>)
    requires 4 + count * ENTRY_SIZE <= |data|
    ensures IsIndex(m)
  {
    if count == 0 then map[] else
      var off := 4 + (count - 1) * ENTRY_SIZE;
      Parsed(data, count - 1)[FromLe4(data[off..off + 4]) := data[off + 4..off + ENTRY_SIZE]]
  }

  function Deserialized(data: seq<byte>): Result<map<nat, Cid>>
  {
    if |data| < 4 then SerializationError else
      var count := FromLe4(data[0..4]);
      if |data| < 4 + count * ENTRY_SIZE then SerializationError else Ok(Parsed(data, count))
  }

  method Deserialize(data: seq<byte>) returns (r: Result<map<nat, Cid>>)
    ensures r == Deserialized(data)
  {
    if |data| < 4 {
      return SerializationError;
    }
    var count := FromLe4(data[0..4]);
    if |data| < 4 + count * ENTRY_SIZE {
      return SerializationError;
    }
    var entries: map<nat, Cid> := map[];
    for i := 0 to count
      invariant entries == Parsed(data, i)
    {
      var offset := 4 + i * ENTRY_SIZE;
      entries := entries[FromLe4(data[offset..offset + 4]) := data[offset + 4..offset + ENTRY_SIZE]];
    }
    r := Ok(entries);
  }

  // ----- round trip -----

  lemma LastEntry(head: seq<byte>, init: seq<byte>, page: seq<byte>, cid: Cid, tail: seq<byte>, n: nat)
    requires |head| == 4 && |init| == n * ENTRY_SIZE && |page| == 4 && |cid| == CID_SIZE
    ensures var data := head + (init + page + cid) + tail;
            var off := 4 + n * ENTRY_SIZE;
            && data == head + init + (page + cid + tail)
            && off + ENTRY_SIZE <= |data|
            && data[off..off + 4] == page && data[off + 4..off + ENTRY_SIZE] == cid
  {
  }

  function Restricted(m: map<nat, Cid>, ks: seq<nat>): map<nat, Cid>
    requires forall p :: p in ks ==> p in m
  {
    map p | p in ks :: m[p]
  }

  lemma RestrictedLast(m: map<nat, Cid>, ks: seq<nat>)
    requires |ks| > 0 && forall p :: p in ks ==> p in m
    ensures var k := |ks| - 1; Restricted(m, ks) == Restricted(m, ks[..k])[ks[k] := m[ks[k]]]
  {
  }

  /** Reading back the entries written. */
  lemma {:induction false} ParsedEntries(m: map<nat, Cid>, ks: seq<nat>, head: seq<byte>, tail: seq<byte>)
    requires IsIndex(m) && |head| == 4 && forall p :: p in ks ==> p in m
    ensures |Entries(m, ks)| == ENTRY_SIZE * |ks|
    ensures Parsed(head + Entries(m, ks) + tail, |ks|) == Restricted(m, ks)
    decreases |ks|
  {
    EntriesLength(m, ks);
    if |ks| > 0 {
      var k := |ks| - 1;
      var p := ks[k];
      EntriesLength(m, ks[..k]);
      ParsedEntries(m, ks[..k], head, Le4(p) + m[p] + tail);
      CountReadBack(p);
      RestrictedLast(m, ks);
      ParsedOne(head, Entries(m, ks[..k]), Le4(p), m[p], tail, k, Restricted(m, ks[..k]));
    }
  }

  lemma ParsedOne(head: seq<byte>, init: seq<byte>, page: seq<byte>, cid: Cid, tail: seq<byte>, n: nat,
                  m: map<nat, Cid>)
    requires |head| == 4 && |init| == n * ENTRY_SIZE && |page| == 4 && |cid| == CID_SIZE
    requires Parsed(head + init + (page + cid + tail), n) == m
    ensures Parsed(head + (init + page + cid) + tail, n + 1) == m[FromLe4(page) := cid]
  {
    LastEntry(head, init, page, cid, tail, n);
  }

  /** Any entries, in any order and with repetitions. */
  function EntryBytes(ps: seq<(nat, Cid)>): seq<byte>
  {
    if |ps| == 0 then [] else var n := |ps| - 1; EntryBytes(ps[..n]) + Le4(ps[n].0) + ps[n].1
  }

  ghost predicate AreEntries(ps: seq<(nat, Cid)>)
  {
    forall i :: 0 <= i < |ps| ==> ps[i].0 < PAGES && |ps[i].1| == CID_SIZE
  }

  /** Entry i is the last one for its page. */
  ghost predicate IsLast(ps: seq<(nat, Cid)>, i: nat)
    requires i < |ps|
  {
    forall j :: i < j < |ps| ==> ps[j].0 != ps[i].0
  }

  /** The map holds each page listed, and nothing else, with the identifier of its last entry. */
  ghost predicate LastWins(m: map<nat, Cid>, ps: seq<(nat, Cid)>)
  {
    && (forall p :: p in m ==> exists i :: 0 <= i < |ps| && ps[i].0 == p)
    && (forall i :: 0 <= i < |ps| ==> ps[i].0 in m && (IsLast(ps, i) ==> m[ps[i].0] == ps[i].1))
  }

  lemma LastWinsNext(m: map<nat, Cid>, ps: seq<(nat, Cid)>, e: (nat, Cid))
    requires LastWins(m, ps)
    ensures LastWins(m[e.0 := e.1], ps + [e])
  {
    var m', qs := m[e.0 := e.1], ps + [e];
    assert qs[|ps|] == e;
    forall p | p in m' ensures exists i :: 0 <= i < |qs| && qs[i].0 == p {
      if p != e.0 {
        var i :| 0 <= i < |ps| && ps[i].0 == p;
        assert qs[i].0 == p;
      }
    }
    forall i | 0 <= i < |qs| ensures qs[i].0 in m' && (IsLast(qs, i) ==> m'[qs[i].0] == qs[i].1) {
      if i < |ps| { LastStays(ps, e, i); }
    }
  }

  lemma LastStays(ps: seq<(nat, Cid)>, e: (nat, Cid), i: nat)
    requires i < |ps|
    ensures (ps + [e])[i] == ps[i] && (IsLast(ps + [e], i) <==> IsLast(ps, i) && ps[i].0 != e.0)
  {
    var qs := ps + [e];
    assert qs[|ps|] == e && forall j :: 0 <= j < |ps| ==> qs[j] == ps[j];
  }

  lemma {:induction false} EntryBytesLength(ps: seq<(nat, Cid)>)
    requires AreEntries(ps)
    ensures |EntryBytes(ps)| == |ps| * ENTRY_SIZE
  {
    if |ps| > 0 { EntryBytesLength(ps[..|ps| - 1]); }
  }

  ghost predicate Reads(data: seq<byte>, ps: seq<(nat, Cid)>)
  {
    4 + |ps| * ENTRY_SIZE <= |data| && LastWins(Parsed(data, |ps|), ps)
  }

  lemma ReadsNext(ps: seq<(nat, Cid)>, e: (nat, Cid), head: seq<byte>, tail: seq<byte>, init: seq<byte>)
    requires |head| == 4 && e.0 < PAGES && |e.1| == CID_SIZE && |init| == |ps| * ENTRY_SIZE
    requires Reads(head + init + (Le4(e.0) + e.1 + tail), ps)
    ensures Reads(head + (init + Le4(e.0) + e.1) + tail, ps + [e])
  {
    var m := Parsed(head + init + (Le4(e.0) + e.1 + tail), |ps|);
    CountReadBack(e.0);
    ParsedOne(head, init, Le4(e.0), e.1, tail, |ps|, m);
    LastWinsNext(m, ps, e);
  }

  lemma ReadsNone(data: seq<byte>)
    requires |data| >= 4
    ensures Reads(data, [])
  {
  }

  lemma {:induction false} ReadsList(ps: seq<(nat, Cid)>, head: seq<byte>, tail: seq<byte>)
    requires AreEntries(ps) && |head| == 4
    ensures Reads(head + EntryBytes(ps) + tail, ps)
    decreases |ps|
  {
    if |ps| == 0 {
      ReadsNone(head + EntryBytes(ps) + tail);
      assert ps == [];
    } else {
      var front, e := ps[..|ps| - 1], ps[|ps| - 1];
      EntryBytesLength(front);
      ReadsList(front, head, Le4(e.0) + e.1 + tail);
      ReadsNext(front, e, head, tail, EntryBytes(front));
      assert ps == front + [e];
    }
  }

  /** Entries are read in any order, a page listed twice keeps its last identifier, and bytes past the announced
      entries are ignored. */
  lemma ReadsAnyList(ps: seq<(nat, Cid)>, tail: seq<byte>)
    requires AreEntries(ps) && |ps| < PAGES
    ensures var r := Deserialized(Le4(|ps|) + EntryBytes(ps) + tail); r.Ok? && LastWins(r.value, ps)
  {
    var data := Le4(|ps|) + EntryBytes(ps) + tail;
    ReadsList(ps, Le4(|ps|), tail);
    EntryBytesLength(ps);
    CountReadBack(|ps|);
    assert data[0..4] == Le4(|ps|);
  }

  /** Reading fails exactly if the bytes end before the count, or before the entries it announces. */
  lemma ReadFailsIff(data: seq<byte>)
    ensures Deserialized(data) == SerializationError <==> |data| < 4 || |data| < 4 + 36 * LittleEndian(data[..4])
  {
    if |data| >= 4 {
      assert data[0..4] == data[..4];
      FromLe4IsLittleEndian(data[..4]);
    }
  }

  /** The canonical bytes, read for as many entries as there are. */
  lemma ReadAll(m: map<nat, Cid>)
    requires IsIndex(m)
    ensures |Serialized(m)| == 4 + ENTRY_SIZE * |m| && Serialized(m)[0..4] == Le4(|m|)
    ensures Parsed(Serialized(m), |m|) == m
  {
    var ks, head := Listed(m.Keys), Le4(|m|);
    ParsedEntries(m, ks, head, []);
    assert Serialized(m) == head + Entries(m, ks) + [];
    assert m == Restricted(m, ks);
  }

  /** A count is read back as written, unless it is 2^32, which reads as zero. */
  lemma CountReadBack(n: nat)
    requires n <= PAGES
    ensures FromLe4(Le4(n)) == if n < PAGES then n else 0
  {
    Le4RoundTrip(n);
  }

  lemma ReadAsCounted(data: seq<byte>, n: nat, count: nat)
    requires |data| == 4 + ENTRY_SIZE * n && FromLe4(data[0..4]) == count <= n
    ensures Deserialized(data) == Ok(Parsed(data, count))
  {
  }

  /** Reading back what was written gives the map exactly when the count fits its 32 bits. */
  lemma RoundTripIff(m: map<nat, Cid>)
    requires IsIndex(m)
    ensures Deserialized(Serialized(m)) == Ok(m) <==> |m| < PAGES
  {
    ReadAll(m);
    PagesAtMost(m);
    CountReadBack(|m|);
    ReadAsCounted(Serialized(m), |m|, if |m| < PAGES then |m| else 0);
    assert |m| == PAGES ==> m != map[];
  }

  ghost function Below(n: nat): (s: set<nat>)
    ensures |s| == n && forall p: nat :: p in s <==> p < n
  {
    if n == 0 then {} else Below(n - 1) + {n - 1}
  }

  lemma PagesAtMost(m: map<nat, Cid>)
    requires IsIndex(m)
    ensures |m| <= PAGES
  {
    var n := PAGES;
    SubsetSize(m.Keys, Below(n));
  }

  /** The one size that fails: an index of all 2^32 pages is written with count zero and read back empty. */
  lemma FullIndexReadsEmpty(cid: Cid)
    requires |cid| == CID_SIZE
    ensures var m := map p | p in Below(PAGES) :: cid;
            IsIndex(m) && |m| == PAGES && Deserialized(Serialized(m)) != Ok(m)
  {
    var m := map p | p in Below(PAGES) :: cid;
    assert m.Keys == Below(PAGES);
    RoundTripIff(m);
  }

  /** Equal bytes mean equal maps, at every size. */
  lemma SerializedInjective(m: map<nat, Cid>, m': map<nat, Cid>)
    requires IsIndex(m) && IsIndex(m') && Serialized(m) == Serialized(m')
    ensures m == m'
  {
    ReadAll(m); ReadAll(m');
  }
}
