/**
 A frame buffer as rows of L bytes, and rectangles in it.
 */
module Rows {
  import opened Words
  import opened Bytes

  /** Where row y starts. */
  function Row(L: nat, y: nat): nat
  {
    if y == 0 then 0 else Row(L, y - 1) + L
  }

  lemma {:induction false} RowMono(L: nat, a: nat, b: nat)
    requires a < b
    ensures Row(L, a) + L <= Row(L, b)
    decreases b
  {
    if a < b - 1 { RowMono(L, a, b - 1); }
  }

  /** The n bytes from column c of row y. */
  function Part(s: seq<uint8>, L: nat, y: nat, c: nat, n: nat): (b: seq<uint8>)
    requires Row(L, y) + c + n <= |s|
    ensures |b| == n
  {
    s[Row(L, y) + c..Row(L, y) + c + n]
  }

  /** A rectangle of h rows of n bytes at row y and column c, within a buffer of v rows. */
  datatype Rect = Rect(y: nat, c: nat, h: nat, n: nat)

  predicate Within(r: Rect, L: nat, v: nat)
  {
    r.y + r.h <= v && r.c + r.n <= L
  }

  /** Byte k is in row i of the rectangle. */
  predicate InRow(k: nat, r: Rect, L: nat, i: nat)
  {
    Row(L, r.y + i) + r.c <= k < Row(L, r.y + i) + r.c + r.n
  }

  /** Byte k is not in rows from..to of the rectangle. */
  predicate Outside(k: nat, r: Rect, L: nat, from: nat, to: nat)
  {
    forall i :: from <= i < to ==> !InRow(k, r, L, i)
  }

  /** new is old with rows from..to of the rectangle replaced. */
  ghost predicate Replaced(old_: seq<uint8>, new_: seq<uint8>, L: nat, v: nat, r: Rect, rows: seq<seq<uint8>>, from: nat, to: nat)
  {
    && Within(r, L, v) && |old_| == |new_| == Row(L, v) && from <= to <= r.h == |rows|
    && (forall i :: 0 <= i < r.h ==> |rows[i]| == r.n)
    && (forall i :: from <= i < to ==> RowIs(new_, L, v, r, i, rows[i]))
    && (forall k :: 0 <= k < |old_| && Outside(k, r, L, from, to) ==> new_[k] == old_[k])
  }

  ghost predicate RowIs(s: seq<uint8>, L: nat, v: nat, r: Rect, i: nat, b: seq<uint8>)
    requires Within(r, L, v) && |s| == Row(L, v) && i < r.h
  {
    RowMono(L, r.y + i, v);
    Part(s, L, r.y + i, r.c, r.n) == b
  }

  lemma ReplacedNothing(s: seq<uint8>, L: nat, v: nat, r: Rect, rows: seq<seq<uint8>>, at: nat)
    requires Within(r, L, v) && |s| == Row(L, v) && at <= r.h == |rows| && forall i :: 0 <= i < r.h ==> |rows[i]| == r.n
    ensures Replaced(s, s, L, v, r, rows, at, at)
  {
    forall k | 0 <= k < |s| ensures Outside(k, r, L, at, at) {}
  }

  /** Row j after row i was written. */
  lemma RowAfter(s: seq<uint8>, L: nat, v: nat, r: Rect, rows: seq<seq<uint8>>, i: nat, j: nat)
    requires Within(r, L, v) && |s| == Row(L, v) && i < r.h && j < r.h && |rows| == r.h && |rows[i]| == r.n
    requires i != j ==> RowIs(s, L, v, r, j, rows[j])
    ensures Row(L, r.y + i) + r.c + r.n <= |s|
    ensures RowIs(Splice(s, Row(L, r.y + i) + r.c, rows[i]), L, v, r, j, rows[j])
  {
    hide Row;
    RowMono(L, r.y + i, v);
    RowMono(L, r.y + j, v);
    var off := Row(L, r.y + i) + r.c;
    if j == i {
      assert Splice(s, off, rows[i])[off..off + r.n] == rows[i];
    } else {
      SpliceElsewhere(s, L, v, r, i, j, rows[i]);
    }
  }

  lemma OutsideSplice(s: seq<uint8>, L: nat, r: Rect, i: nat, b: seq<uint8>, k: nat)
    requires |b| == r.n && Row(L, r.y + i) + r.c + r.n <= |s| && k < |s| && !InRow(k, r, L, i)
    ensures Splice(s, Row(L, r.y + i) + r.c, b)[k] == s[k]
  {
    hide Row;
  }

  /** Writing one more row, at either end. */
  lemma ReplacedMore(old_: seq<uint8>, new_: seq<uint8>, L: nat, v: nat, r: Rect, rows: seq<seq<uint8>>, from: nat, to: nat, i: nat)
    requires Replaced(old_, new_, L, v, r, rows, from, to) && i < r.h && (i == to || i + 1 == from)
    ensures Row(L, r.y + i) + r.c + r.n <= |new_|
    ensures Replaced(old_, Splice(new_, Row(L, r.y + i) + r.c, rows[i]), L, v, r, rows, if i == to then from else i, if i == to then to + 1 else to)
  {
    hide Row, RowIs, InRow;
    RowMono(L, r.y + i, v);
    var off := Row(L, r.y + i) + r.c;
    var s := Splice(new_, off, rows[i]);
    var from1, to1 := if i == to then from else i, if i == to then to + 1 else to;
    forall j | from1 <= j < to1 ensures RowIs(s, L, v, r, j, rows[j]) { RowAfter(new_, L, v, r, rows, i, j); }
    forall k | 0 <= k < |old_| && Outside(k, r, L, from1, to1) ensures s[k] == old_[k] {
      assert !InRow(k, r, L, i);
      OutsideSplice(new_, L, r, i, rows[i], k);
      assert Outside(k, r, L, from, to);
    }
  }

  lemma SpliceElsewhere(s: seq<uint8>, L: nat, v: nat, r: Rect, i: nat, j: nat, b: seq<uint8>)
    requires Within(r, L, v) && |s| == Row(L, v) && i < r.h && j < r.h && i != j && |b| == r.n
    ensures Row(L, r.y + i) + r.c + r.n <= |s| && Row(L, r.y + j) + r.c + r.n <= |s|
    ensures Part(Splice(s, Row(L, r.y + i) + r.c, b), L, r.y + j, r.c, r.n) == Part(s, L, r.y + j, r.c, r.n)
  {
    hide Row;
    RowMono(L, r.y + i, v);
    RowMono(L, r.y + j, v);
    if i < j { RowMono(L, r.y + i, r.y + j); } else { RowMono(L, r.y + j, r.y + i); }
  }

  /** A row that the replacement has not reached still has its old bytes. */
  lemma NotReached(old_: seq<uint8>, new_: seq<uint8>, L: nat, v: nat, r: Rect, rows: seq<seq<uint8>>, from: nat, to: nat, y: nat, c: nat)
    requires Replaced(old_, new_, L, v, r, rows, from, to) && y < v && c + r.n <= L
    requires y < r.y + from || r.y + to <= y
    ensures Row(L, y) + c + r.n <= |old_| && Part(new_, L, y, c, r.n) == Part(old_, L, y, c, r.n)
  {
    hide Row;
    RowMono(L, y, v);
    forall k | Row(L, y) + c <= k < Row(L, y) + c + r.n ensures new_[k] == old_[k] {
      forall i | from <= i < to ensures !InRow(k, r, L, i) {
        if y < r.y + i { RowMono(L, y, r.y + i); } else { RowMono(L, r.y + i, y); }
      }
      assert Outside(k, r, L, from, to);
    }
  }

  /** The replacement determines the result. */
  lemma ReplacedUnique(old_: seq<uint8>, a: seq<uint8>, b: seq<uint8>, L: nat, v: nat, r: Rect, rows: seq<seq<uint8>>)
    requires Replaced(old_, a, L, v, r, rows, 0, r.h) && Replaced(old_, b, L, v, r, rows, 0, r.h)
    ensures a == b
  {
    hide Row;
    forall k | 0 <= k < |old_| ensures a[k] == b[k] {
      if !Outside(k, r, L, 0, r.h) {
        var i :| 0 <= i < r.h && InRow(k, r, L, i);
        assert RowIs(a, L, v, r, i, rows[i]) && RowIs(b, L, v, r, i, rows[i]);
        RowMono(L, r.y + i, v);
        assert a[k] == Part(a, L, r.y + i, r.c, r.n)[k - Row(L, r.y + i) - r.c];
        assert b[k] == Part(b, L, r.y + i, r.c, r.n)[k - Row(L, r.y + i) - r.c];
      }
    }
  }

  /** Row i of a rectangle. */
  function RowOf(s: seq<uint8>, L: nat, v: nat, r: Rect, i: nat): (b: seq<uint8>)
    requires Within(r, L, v) && |s| == Row(L, v) && i < r.h
    ensures |b| == r.n
  {
    RowMono(L, r.y + i, v);
    Part(s, L, r.y + i, r.c, r.n)
  }

  /** The bytes of a rectangle, row by row. */
  function RowsOf(s: seq<uint8>, L: nat, v: nat, r: Rect): (rows: seq<seq<uint8>>)
    requires Within(r, L, v) && |s| == Row(L, v)
    ensures |rows| == r.h && forall i :: 0 <= i < r.h ==> rows[i] == RowOf(s, L, v, r, i)
  {
    seq(r.h, i requires 0 <= i < r.h => RowOf(s, L, v, r, i))
  }

  /** The source row of a copy is not overwritten before it is read, in the order that the direction asks for. */
  lemma SourceIntact(old_: seq<uint8>, new_: seq<uint8>, L: nat, v: nat, src: Rect, dst: Rect, from: nat, to: nat, i: nat)
    requires Within(src, L, v) && Within(dst, L, v) && src.h == dst.h && src.n == dst.n && |old_| == Row(L, v) && i < src.h
    requires Replaced(old_, new_, L, v, dst, RowsOf(old_, L, v, src), from, to)
    requires if dst.y <= src.y then to <= i else i < from
    ensures Row(L, src.y + i) + src.c + src.n <= |new_|
    ensures new_[Row(L, src.y + i) + src.c..Row(L, src.y + i) + src.c + src.n] == RowsOf(old_, L, v, src)[i]
  {
    hide Row;
    RowMono(L, src.y + i, v);
    NotReached(old_, new_, L, v, dst, RowsOf(old_, L, v, src), from, to, src.y + i, src.c);
  }

  /** A row that was replaced can be read back. */
  lemma RowReplaced(old_: seq<uint8>, new_: seq<uint8>, L: nat, v: nat, r: Rect, rows: seq<seq<uint8>>, from: nat, to: nat, i: nat)
    requires Replaced(old_, new_, L, v, r, rows, from, to) && from <= i < to
    ensures Row(L, r.y + i) + r.c + r.n <= |new_|
    ensures new_[Row(L, r.y + i) + r.c..Row(L, r.y + i) + r.c + r.n] == rows[i]
  {
    hide Row;
    RowMono(L, r.y + i, v);
    assert RowIs(new_, L, v, r, i, rows[i]);
  }

  lemma SpliceMore(s: seq<uint8>, off: nat, a: seq<uint8>, b: seq<uint8>)
    requires off + |a| + |b| <= |s|
    ensures Splice(Splice(s, off, a), off + |a|, b) == Splice(s, off, a + b)
  {
  }

  lemma SpliceNothing(s: seq<uint8>, off: nat)
    requires off <= |s|
    ensures Splice(s, off, []) == s
  {
  }

  /** The same row h times. */
  function Same(b: seq<uint8>, h: nat): (rows: seq<seq<uint8>>)
    ensures |rows| == h && forall i :: 0 <= i < h ==> rows[i] == b
  {
    seq(h, _ => b)
  }
}
