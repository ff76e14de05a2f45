/** The list derivations that the dashboard of frontend/src/App.tsx renders:
    the search filter over the coin rows, and the top gainer and top loser of
    the last 24 hours.  Rendering, React state and effects, fetching and number
    formatting are not part of this model. */
module Dashboard {
  import opened Wrappers

  /** One row of the coin table. */
  datatype Row = Row(id: string, name: string, price: real, change24h: real, trend: string)

  // ---------------------------------------------------------------------------
  // String helpers standing for String.prototype.trim, toLowerCase and includes

  /** The characters that String.prototype.trim strips: white space (tab,
      vertical tab, form feed, the space separators, no-break space, byte
      order mark) and line terminators. */
  predicate IsTrimmable(ch: char)
  {
    ch == '\t' || ch == '\n' || ch == '\U{B}' || ch == '\U{C}' || ch == '\r' || ch == ' ' ||
    ch == '\U{A0}' || ch == '\U{1680}' || ('\U{2000}' <= ch <= '\U{200A}') ||
    ch == '\U{2028}' || ch == '\U{2029}' || ch == '\U{202F}' || ch == '\U{205F}' ||
    ch == '\U{3000}' || ch == '\U{FEFF}'
  }

  /** Drops leading trimmable characters. */
  function TrimStart(s: string): (r: string)
    ensures |r| <= |s| && r == s[|s| - |r|..]
    ensures forall k :: 0 <= k < |s| - |r| ==> IsTrimmable(s[k])
    ensures r == [] || !IsTrimmable(r[0])
  {
    if s != [] && IsTrimmable(s[0]) then TrimStart(s[1..]) else s
  }

  /** Drops trailing trimmable characters. */
  function TrimEnd(s: string): (r: string)
    ensures |r| <= |s| && r == s[..|r|]
    ensures forall k :: |r| <= k < |s| ==> IsTrimmable(s[k])
    ensures r == [] || !IsTrimmable(r[|r| - 1])
  {
    if s != [] && IsTrimmable(s[|s| - 1]) then TrimEnd(s[..|s| - 1]) else s
  }

  function Trim(s: string): string
  {
    TrimEnd(TrimStart(s))
  }

  /** Lower-cases the ASCII letters and keeps every other character. */
  function ToLower(s: string): string
  {
    seq(|s|, i requires 0 <= i < |s| => if 'A' <= s[i] <= 'Z' then (s[i] as int + 32) as char else s[i])
  }

  /** Whether `q` occurs in `s` starting at position `i`. */
  predicate OccursAt(s: string, q: string, i: int)
  {
    0 <= i && i + |q| <= |s| && s[i..i + |q|] == q
  }

  /** Whether `q` occurs in `s` at some position (String.prototype.includes). */
  function Includes(s: string, q: string): (r: bool)
    ensures r <==> exists i :: OccursAt(s, q, i)
  {
    if q <= s then
      assert OccursAt(s, q, 0);
      true
    else if s == [] then
      false
    else
      IncludesShift(s, q);
      Includes(s[1..], q)
  }

  /** An occurrence of `q` not at the start of `s` is an occurrence in `s[1..]`. */
  lemma IncludesShift(s: string, q: string)
    requires s != [] && !(q <= s)
    ensures (exists i :: OccursAt(s, q, i)) <==> (exists i :: OccursAt(s[1..], q, i))
  {
    if exists i :: OccursAt(s, q, i) {
      var i :| OccursAt(s, q, i);
      assert i != 0;
      assert OccursAt(s[1..], q, i - 1);
    }
    if exists i :: OccursAt(s[1..], q, i) {
      var i :| OccursAt(s[1..], q, i);
      assert OccursAt(s, q, i + 1);
    }
  }

  // ---------------------------------------------------------------------------
  // The `filtered` memo

  /** The query as the filter uses it: trimmed, then lower-cased. */
  function Normalize(query: string): (q: string)
    ensures |q| <= |query|
    ensures q == [] <==> forall k :: 0 <= k < |query| ==> IsTrimmable(query[k])
  {
    ToLower(Trim(query))
  }

  /** Whether a row matches a normalized, non-empty query. */
  predicate Matches(r: Row, q: string)
  {
    Includes(ToLower(r.name), q) || Includes(ToLower(r.id), q)
  }

  /** Array.prototype.filter with the `Matches` predicate. */
  function FilterRows(rows: seq<Row>, q: string): (kept: seq<Row>)
    ensures |kept| <= |rows|
    ensures forall x :: x in kept <==> x in rows && Matches(x, q)
  {
    if rows == [] then []
    else
      var last := rows[|rows| - 1];
      assert rows == rows[..|rows| - 1] + [last];
      FilterRows(rows[..|rows| - 1], q) + (if Matches(last, q) then [last] else [])
  }

  /** The rows the table shows for the search box's text `query`. */
  function Filtered(rows: seq<Row>, query: string): (r: seq<Row>)
    ensures Normalize(query) == [] ==> r == rows
    ensures Normalize(query) != [] ==>
              forall x :: x in r <==> x in rows && Matches(x, Normalize(query))
  {
    var q := Normalize(query);
    if q == [] then rows else FilterRows(rows, q)
  }

  /** The positions of `rows` that the filter keeps, in increasing order. */
  ghost function KeptIndices(rows: seq<Row>, q: string): seq<nat>
  {
    if rows == [] then []
    else
      KeptIndices(rows[..|rows| - 1], q) +
      (if Matches(rows[|rows| - 1], q) then [|rows| - 1] else [])
  }

  /** The filter's result is `rows` read at the kept positions, which are
      strictly increasing: nothing is added and nothing is reordered. */
  lemma {:induction false} FilterSelects(rows: seq<Row>, q: string)
    ensures |KeptIndices(rows, q)| == |FilterRows(rows, q)|
    ensures forall k :: 0 <= k < |KeptIndices(rows, q)| ==>
              KeptIndices(rows, q)[k] < |rows| && FilterRows(rows, q)[k] == rows[KeptIndices(rows, q)[k]]
    ensures forall k, l :: 0 <= k < l < |KeptIndices(rows, q)| ==> KeptIndices(rows, q)[k] < KeptIndices(rows, q)[l]
  {
    if rows != [] {
      var n := |rows| - 1;
      var init := rows[..n];
      FilterSelects(init, q);
      var idx0, kept0 := KeptIndices(init, q), FilterRows(init, q);
      var idx, kept := KeptIndices(rows, q), FilterRows(rows, q);
      if Matches(rows[n], q) {
        assert idx == idx0 + [n] && kept == kept0 + [rows[n]];
        forall k | 0 <= k < |idx0| ensures kept[k] == rows[idx[k]] {
          assert kept[k] == init[idx0[k]];
        }
      } else {
        assert idx == idx0 && kept == kept0;
        forall k | 0 <= k < |idx| ensures kept[k] == rows[idx[k]] {
          assert kept[k] == init[idx0[k]];
        }
      }
    }
  }

  /** A position is kept exactly when its row matches the query. */
  lemma {:induction false} KeptIffMatches(rows: seq<Row>, q: string)
    ensures forall i :: 0 <= i < |rows| ==> (i in KeptIndices(rows, q) <==> Matches(rows[i], q))
  {
    if rows != [] {
      var n := |rows| - 1;
      var init := rows[..n];
      KeptIffMatches(init, q);
      var idx0, idx := KeptIndices(init, q), KeptIndices(rows, q);
      assert idx == idx0 + (if Matches(rows[n], q) then [n] else []);
      forall i | 0 <= i < |rows| ensures i in idx <==> Matches(rows[i], q) {
        if i < n {
          assert rows[i] == init[i];
          assert i in idx <==> i in idx0;
        } else {
          assert n !in idx0 by { KeptIndicesBelow(init, q); }
        }
      }
    }
  }

  /** Every kept position lies within `rows`. */
  lemma {:induction false} KeptIndicesBelow(rows: seq<Row>, q: string)
    ensures forall k :: 0 <= k < |KeptIndices(rows, q)| ==> KeptIndices(rows, q)[k] < |rows|
  {
    if rows != [] {
      KeptIndicesBelow(rows[..|rows| - 1], q);
    }
  }

  // ---------------------------------------------------------------------------
  // The `topGainer` and `topLoser` memos

  /** Which extreme a reduction looks for. */
  datatype Direction = Gainer | Loser

  /** The reducer's test: whether the next row `b` replaces the accumulator `a`. */
  predicate Beats(dir: Direction, b: Row, a: Row)
  {
    match dir
    case Gainer => b.change24h > a.change24h
    case Loser => b.change24h < a.change24h
  }

  /** Array.prototype.reduce without an initial value: start from the first
      row and fold the rest from left to right. */
  function Reduce(dir: Direction, rows: seq<Row>): Row
    requires |rows| > 0
  {
    if |rows| == 1 then rows[0]
    else
      var a := Reduce(dir, rows[..|rows| - 1]);
      var b := rows[|rows| - 1];
      if Beats(dir, b, a) then b else a
  }

  /** Position `k` holds a row that no row beats, and it strictly beats every
      row before it. */
  predicate FirstExtremeAt(dir: Direction, rows: seq<Row>, k: int)
  {
    0 <= k < |rows| &&
    (forall j :: 0 <= j < |rows| ==> !Beats(dir, rows[j], rows[k])) &&
    (forall j :: 0 <= j < k ==> Beats(dir, rows[k], rows[j]))
  }

  /** The reduction picks a row that no row beats, and every row before it is
      strictly beaten by it: it is the first row with the extreme change. */
  lemma {:induction false} ReduceFirstExtreme(dir: Direction, rows: seq<Row>)
    requires |rows| > 0
    ensures exists k :: FirstExtremeAt(dir, rows, k) && rows[k] == Reduce(dir, rows)
  {
    if |rows| == 1 {
      assert FirstExtremeAt(dir, rows, 0);
    } else {
      var n := |rows| - 1;
      ReduceFirstExtreme(dir, rows[..n]);
      var k :| FirstExtremeAt(dir, rows[..n], k) && rows[..n][k] == Reduce(dir, rows[..n]);
      ExtendFirstExtreme(dir, rows, k);
    }
  }

  /** One more step of the reduction keeps the first extreme row, or moves to
      the new last row when that one beats it. */
  lemma ExtendFirstExtreme(dir: Direction, rows: seq<Row>, k: int)
    requires |rows| > 1 && FirstExtremeAt(dir, rows[..|rows| - 1], k)
    ensures var n := |rows| - 1;
      if Beats(dir, rows[n], rows[k]) then FirstExtremeAt(dir, rows, n) else FirstExtremeAt(dir, rows, k)
  {
  }

  /** The row with the largest 24h change, the first one on a tie; null
      exactly when there are no rows. */
  function TopGainer(rows: seq<Row>): (top: Option<Row>)
    ensures top.None? <==> |rows| == 0
    ensures top.Some? ==> top.value in rows
    ensures top.Some? ==> forall r :: r in rows ==> r.change24h <= top.value.change24h
    ensures top.Some? ==> exists k :: 0 <= k < |rows| && rows[k] == top.value &&
                                     forall j :: 0 <= j < k ==> rows[j].change24h < top.value.change24h
  {
    if |rows| == 0 then None
    else
      ReduceFirstExtreme(Gainer, rows);
      Some(Reduce(Gainer, rows))
  }

  /** The row with the smallest 24h change, the first one on a tie; null
      exactly when there are no rows. */
  function TopLoser(rows: seq<Row>): (top: Option<Row>)
    ensures top.None? <==> |rows| == 0
    ensures top.Some? ==> top.value in rows
    ensures top.Some? ==> forall r :: r in rows ==> r.change24h >= top.value.change24h
    ensures top.Some? ==> exists k :: 0 <= k < |rows| && rows[k] == top.value &&
                                     forall j :: 0 <= j < k ==> rows[j].change24h > top.value.change24h
  {
    if |rows| == 0 then None
    else
      ReduceFirstExtreme(Loser, rows);
      Some(Reduce(Loser, rows))
  }
}
