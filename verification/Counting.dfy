/** Counting the points of a line and the cells of a window that satisfy a predicate. */
module Counting {

  lemma Pick<T>(s: set<T>) returns (x: T)
    requires s != {}
    ensures x in s
  {
    x :| x in s;
  }

  lemma {:induction false} SubsetSize<T>(a: set<T>, b: set<T>)
    requires a <= b
    ensures |a| <= |b|
    ensures |a| == |b| ==> a == b
  {
    if a != {} {
      var x := Pick(a);
      SubsetSize(a - {x}, b - {x});
    }
  }

  ghost function Count(f: int -> bool, lo: int, hi: int): nat
    decreases hi - lo
  {
    if lo >= hi then 0 else Count(f, lo, hi - 1) + (if f(hi - 1) then 1 else 0)
  }

  lemma {:induction false} CountSplit(f: int -> bool, lo: int, mid: int, hi: int)
    requires lo <= mid <= hi
    ensures Count(f, lo, hi) == Count(f, lo, mid) + Count(f, mid, hi)
    decreases hi - mid
  {
    if mid < hi {
      CountSplit(f, lo, mid, hi - 1);
    }
  }

  lemma {:induction false} CountUniform(f: int -> bool, lo: int, hi: int, b: bool)
    requires lo <= hi && forall p :: lo <= p < hi ==> f(p) == b
    ensures Count(f, lo, hi) == if b then hi - lo else 0
    decreases hi - lo
  {
    if lo < hi {
      CountUniform(f, lo, hi - 1, b);
    }
  }

  lemma {:induction false} CountCongruent(f: int -> bool, g: int -> bool, lo: int, hi: int)
    requires forall p :: lo <= p < hi ==> f(p) == g(p)
    ensures Count(f, lo, hi) == Count(g, lo, hi)
    decreases hi - lo
  {
    if lo < hi {
      CountCongruent(f, g, lo, hi - 1);
    }
  }

  /** The cells of columns [lo, hi) in row q. */
  ghost function RowCount(f: (int, int) -> bool, lo: int, hi: int, q: int): nat {
    Count(p => f(p, q), lo, hi)
  }

  ghost function WindowCount(f: (int, int) -> bool, lo: int, hi: int, y0: int, y1: int): nat
    decreases y1 - y0
  {
    if y0 >= y1 then 0 else WindowCount(f, lo, hi, y0, y1 - 1) + RowCount(f, lo, hi, y1 - 1)
  }

  lemma {:induction false} WindowExtend(f: (int, int) -> bool, lo: int, hi: int, y0: int, y1: int, y2: int, length: int)
    requires y0 <= y1 <= y2
    requires forall q :: y1 <= q < y2 ==> RowCount(f, lo, hi, q) == length
    ensures WindowCount(f, lo, hi, y0, y2) == WindowCount(f, lo, hi, y0, y1) + length * (y2 - y1)
    decreases y2 - y1
  {
    if y1 < y2 {
      WindowExtend(f, lo, hi, y0, y1, y2 - 1, length);
      assert length * (y2 - y1) == length * (y2 - 1 - y1) + length;
    }
  }

  /** WindowCount is the cardinality of the cells it counts. */
  lemma {:induction false} WindowIsCardinality(f: (int, int) -> bool, lo: int, hi: int, y0: int, y1: int,
      s: set<(int, int)>)
    requires forall c :: c in s <==> lo <= c.0 < hi && y0 <= c.1 < y1 && f(c.0, c.1)
    ensures |s| == WindowCount(f, lo, hi, y0, y1)
    decreases y1 - y0
  {
    if y0 >= y1 {
      assert s == {};
    } else {
      var row := set c | c in s && c.1 == y1 - 1;
      var rest := set c | c in s && c.1 < y1 - 1;
      assert s == rest + row && rest !! row;
      WindowIsCardinality(f, lo, hi, y0, y1 - 1, rest);
      RowIsCardinality(f, lo, hi, y1 - 1, row);
    }
  }

  lemma {:induction false} RowIsCardinality(f: (int, int) -> bool, lo: int, hi: int, q: int, s: set<(int, int)>)
    requires forall c :: c in s <==> lo <= c.0 < hi && c.1 == q && f(c.0, c.1)
    ensures |s| == RowCount(f, lo, hi, q)
    decreases hi - lo
  {
    if lo >= hi {
      assert s == {};
    } else {
      var rest := set c | c in s && c.0 < hi - 1;
      RowIsCardinality(f, lo, hi - 1, q, rest);
      CountCongruent(p => f(p, q), p => f(p, q), lo, hi - 1);
      if f(hi - 1, q) {
        assert (hi - 1, q) in s;
        assert s == rest + {(hi - 1, q)};
      } else {
        assert s == rest;
      }
    }
  }
}
