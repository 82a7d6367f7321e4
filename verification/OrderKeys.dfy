/**
 * The keys of the insertion-order tree: 64-bit indices as big-endian bytes, kept sorted byte by byte.
 * The byte order of the keys is the numeric order of the indices.
 */
module OrderKeys {
  import opened GraphTypes

  type Key = seq<Byte>

  /** Keys have eight bytes. */
  function KeyLength(): nat { 8 }

  function OrderKey(index: nat): Key { BigEndian(index, KeyLength()) }

  const INDEX_LIMIT: nat := 0x1_0000_0000_0000_0000

  function BigEndian(v: nat, len: nat): Key {
    if len == 0 then [] else BigEndian(v / 256, len - 1) + [v % 256]
  }

  function FromBigEndian(k: Key): nat {
    if k == [] then 0 else FromBigEndian(k[..|k| - 1]) * 256 + k[|k| - 1]
  }

  /** The byte-wise order in which the tree iterates. */
  predicate Before(a: Key, b: Key) {
    if a == [] then b != []
    else b != [] && (a[0] < b[0] || (a[0] == b[0] && Before(a[1..], b[1..])))
  }

  ghost function Pow256(len: nat): nat {
    if len == 0 then 1 else 256 * Pow256(len - 1)
  }

  lemma {:induction false} BigEndianRoundTrip(v: nat, len: nat)
    requires v < Pow256(len)
    ensures |BigEndian(v, len)| == len
    ensures FromBigEndian(BigEndian(v, len)) == v
  {
    if len == 0 {
    } else {
      BigEndianRoundTrip(v / 256, len - 1);
    }
  }

  lemma {:induction false} FromBigEndianRoundTrip(k: Key)
    ensures FromBigEndian(k) < Pow256(|k|)
    ensures BigEndian(FromBigEndian(k), |k|) == k
  {
    if k == [] {
    } else {
      FromBigEndianRoundTrip(k[..|k| - 1]);
      assert k == k[..|k| - 1] + [k[|k| - 1]];
    }
  }

  lemma {:induction false} BeforeSnoc(a: Key, b: Key, x: Byte, y: Byte)
    requires |a| == |b|
    ensures Before(a + [x], b + [y]) <==> Before(a, b) || (a == b && x < y)
  {
    if a == [] {
    } else {
      assert (a + [x])[1..] == a[1..] + [x] && (b + [y])[1..] == b[1..] + [y];
      assert a == [a[0]] + a[1..] && b == [b[0]] + b[1..];
      BeforeSnoc(a[1..], b[1..], x, y);
    }
  }

  /** Keys of one length sort as the numbers they encode. */
  lemma {:induction false} KeysSortAsNumbers(u: nat, v: nat, len: nat)
    requires u < Pow256(len) && v < Pow256(len)
    ensures Before(BigEndian(u, len), BigEndian(v, len)) <==> u < v
  {
    if len == 0 {
    } else {
      SameKey(u / 256, v / 256, len - 1);
      KeysSortAsNumbers(u / 256, v / 256, len - 1);
      BeforeSnoc(BigEndian(u / 256, len - 1), BigEndian(v / 256, len - 1), u % 256, v % 256);
      LastDigit(u, v);
    }
  }

  lemma SameKey(u: nat, v: nat, len: nat)
    requires u < Pow256(len) && v < Pow256(len)
    ensures |BigEndian(u, len)| == |BigEndian(v, len)|
    ensures BigEndian(u, len) == BigEndian(v, len) <==> u == v
  {
    BigEndianRoundTrip(u, len);
    BigEndianRoundTrip(v, len);
  }

  lemma LastDigit(u: nat, v: nat)
    ensures u < v <==> u / 256 < v / 256 || (u / 256 == v / 256 && u % 256 < v % 256)
  {
  }

  lemma {:induction false} BeforeTotal(a: Key, b: Key)
    ensures a == b || Before(a, b) || Before(b, a)
    ensures !(Before(a, b) && Before(b, a)) && !Before(a, a)
  {
    if a != [] && b != [] {
      BeforeTotal(a[1..], b[1..]);
      assert a == [a[0]] + a[1..] && b == [b[0]] + b[1..];
    }
    if a != [] { BeforeTotal(a[1..], a[1..]); }
  }

  lemma {:induction false} BeforeTransitive(a: Key, b: Key, c: Key)
    requires Before(a, b) && Before(b, c)
    ensures Before(a, c)
  {
    if a == [] || b == [] || c == [] || !(a[0] == b[0] == c[0]) {
    } else {
      BeforeTransitive(a[1..], b[1..], c[1..]);
    }
  }

  // ---------- Trees keyed by such keys ----------

  ghost predicate IsLast(m: map<Key, string>, k: Key) {
    k in m && forall j | j in m && j != k :: Before(j, k)
  }

  lemma {:induction false} LastExists(m: map<Key, string>)
    requires m != map[]
    ensures exists k :: IsLast(m, k)
    decreases |m|
  {
    var k :| k in m;
    var rest := m - {k};
    assert forall j | j in m :: j == k || j in rest;
    if rest == map[] {
      assert IsLast(m, k);
    } else {
      LastExists(rest);
      var l :| IsLast(rest, l);
      BeforeTotal(k, l);
      if Before(k, l) {
        assert IsLast(m, l);
      } else {
        forall j | j in m && j != k ensures Before(j, k) {
          assert j in rest;
          if j != l { BeforeTransitive(j, l, k); }
        }
        assert IsLast(m, k);
      }
    }
  }

  lemma LastUnique(m: map<Key, string>, k: Key, l: Key)
    requires IsLast(m, k) && IsLast(m, l)
    ensures k == l
  {
    BeforeTotal(k, l);
  }

  ghost function Last(m: map<Key, string>): (k: Key)
    requires m != map[]
    ensures IsLast(m, k)
  {
    LastExists(m);
    var k :| IsLast(m, k);
    k
  }

  /** The values in key order. */
  ghost function Listing(m: map<Key, string>): seq<string>
    decreases |m|
  {
    if m == map[] then [] else Listing(m - {Last(m)}) + [m[Last(m)]]
  }

  /** A key after all others goes to the end of the listing. */
  lemma ListingAppend(m: map<Key, string>, k: Key, id: string)
    requires forall j | j in m :: Before(j, k)
    ensures Listing(m[k := id]) == Listing(m) + [id]
  {
    BeforeTotal(k, k);
    var next := m[k := id];
    assert IsLast(next, k);
    LastUnique(next, k, Last(next));
    assert next - {k} == m;
  }

  /** The index after the last one, wrapping as 64-bit addition does. */
  ghost function NextIndex(m: map<Key, string>): nat {
    if m == map[] then 0 else (FromBigEndian(Last(m)) + 1) % INDEX_LIMIT
  }

  /** All keys are well-formed and encode indices below the bound. */
  ghost predicate KeysBelow(m: map<Key, string>, bound: nat) {
    forall k | k in m :: |k| == KeyLength() && FromBigEndian(k) < bound
  }

  lemma Pow256Eight()
    ensures KeyLength() == 8 && Pow256(8) == INDEX_LIMIT == 0x1_0000_0000_0000_0000
  {
    assert Pow256(4) == 0x1_0000_0000;
    assert Pow256(8) == 256 * (256 * (256 * (256 * Pow256(4))));
  }

  /** The key of the index after the last one comes after all others. */
  lemma SuccessorIsAfter(m: map<Key, string>, len: nat)
    requires m != map[] && |Last(m)| == len && FromBigEndian(Last(m)) + 1 < Pow256(len)
    ensures forall j | j in m :: Before(j, BigEndian(FromBigEndian(Last(m)) + 1, len))
  {
    var top := FromBigEndian(Last(m));
    var next := BigEndian(top + 1, len);
    FromBigEndianRoundTrip(Last(m));
    KeysSortAsNumbers(top, top + 1, len);
    forall j | j in m ensures Before(j, next) {
      if j != Last(m) { BeforeTransitive(j, Last(m), next); }
    }
  }

  lemma OrderKeyFacts(index: nat)
    requires index < INDEX_LIMIT
    ensures |OrderKey(index)| == KeyLength() && FromBigEndian(OrderKey(index)) == index
  {
    Pow256Eight();
    BigEndianRoundTrip(index, KeyLength());
  }

  lemma NextIndexValue(m: map<Key, string>, bound: nat)
    requires KeysBelow(m, bound) && bound < INDEX_LIMIT
    ensures NextIndex(m) == if m == map[] then 0 else FromBigEndian(Last(m)) + 1
    ensures NextIndex(m) <= bound
    ensures m != map[] ==> |Last(m)| == KeyLength()
  {
    if m != map[] { SmallModulo(FromBigEndian(Last(m)) + 1); }
  }

  lemma SmallModulo(x: nat)
    ensures x < INDEX_LIMIT ==> x % INDEX_LIMIT == x
  {
  }

  /** Below the limit, the next index gives a key after all others. */
  lemma NextIndexIsAfter(m: map<Key, string>, bound: nat)
    requires KeysBelow(m, bound) && bound < INDEX_LIMIT
    ensures forall j | j in m :: Before(j, OrderKey(NextIndex(m)))
  {
    NextIndexValue(m, bound);
    if m != map[] {
      Pow256Eight();
      SuccessorIsAfter(m, KeyLength());
    }
  }

  /** The tree after appending an id under the next index. */
  ghost function Appended(m: map<Key, string>, id: string): map<Key, string> {
    m[OrderKey(NextIndex(m)) := id]
  }

  lemma AppendedFacts(m: map<Key, string>, id: string, bound: nat)
    requires KeysBelow(m, bound) && bound < INDEX_LIMIT
    ensures Listing(Appended(m, id)) == Listing(m) + [id]
    ensures KeysBelow(Appended(m, id), bound + 1)
    ensures m != map[] ==> |Last(m)| == KeyLength()
  {
    NextIndexValue(m, bound);
    NextIndexIsAfter(m, bound);
    OrderKeyFacts(NextIndex(m));
    ListingAppend(m, OrderKey(NextIndex(m)), id);
  }

  /** A list written out as one key per index. */
  ghost function Enumerated(ids: seq<string>): map<Key, string> {
    if ids == [] then map[] else
      PutAt(Enumerated(ids[..|ids| - 1]), |ids| - 1, ids[|ids| - 1])
  }

  ghost function PutAt(m: map<Key, string>, index: nat, id: string): map<Key, string> {
    m[OrderKey(index) := id]
  }

  lemma KeyAfterSmaller(j: Key, bound: nat)
    requires |j| == KeyLength() && FromBigEndian(j) < bound < INDEX_LIMIT
    ensures Before(j, OrderKey(bound))
  {
    Pow256Eight();
    FromBigEndianRoundTrip(j);
    KeysSortAsNumbers(FromBigEndian(j), bound, KeyLength());
  }

  lemma EnumeratedStep(m: map<Key, string>, n: nat, id: string)
    requires KeysBelow(m, n) && n < INDEX_LIMIT
    ensures Listing(PutAt(m, n, id)) == Listing(m) + [id]
    ensures KeysBelow(PutAt(m, n, id), n + 1)
  {
    OrderKeyFacts(n);
    forall j | j in m ensures Before(j, OrderKey(n)) { KeyAfterSmaller(j, n); }
    ListingAppend(m, OrderKey(n), id);
  }

  lemma {:induction false} EnumeratedFacts(ids: seq<string>)
    requires |ids| <= INDEX_LIMIT
    ensures Lists(Enumerated(ids), ids)
  {
    if ids == [] {
      assert Listing(map[]) == [];
    } else {
      var front, last := ids[..|ids| - 1], ids[|ids| - 1];
      EnumeratedFacts(front);
      ListsMore(Enumerated(front), front, last);
      assert ids == front + [last];
      assert Enumerated(ids) == PutAt(Enumerated(front), |front|, last);
    }
  }

  /** The tree lists exactly these ids, under indices below their number. */
  ghost predicate Lists(m: map<Key, string>, ids: seq<string>) {
    Listing(m) == ids && KeysBelow(m, |ids|)
  }

  lemma ListsMore(m: map<Key, string>, ids: seq<string>, id: string)
    requires Lists(m, ids) && |ids| < INDEX_LIMIT
    ensures Lists(PutAt(m, |ids|, id), ids + [id])
  {
    EnumeratedStep(m, |ids|, id);
  }
}
