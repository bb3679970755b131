/** The alignment tables as they are filled in place, and the pattern traced back through them. */
module PatternTables {
  import opened Bytes
  import opened Patterns
  import opened PatternMerge
  import opened PatternTrace

  /** The search for a merge cheaper than a threshold is given up: after the first row, or not at all, since the smallest
      value seen only falls. The first row counts without its first entry. */
  predicate GivesUp(a: Pattern, b: Pattern, numA: nat, numB: nat, threshold: int) {
    a != [] && forall j :: 1 <= j <= |b| ==> Entry(a, b, numA, numB, 1, j).state >= threshold
  }

  // ---------------------------------------------------------------- contents of the tables

  /** type_table (true: in the pattern), state_table and trans_sources of two strings. */
  class Tables {
    const pat: array2<bool>
    const state: array2<int>
    const trans: array2<Source>

    constructor (lenA: nat, lenB: nat)
      ensures Sized(lenA, lenB) && fresh(pat) && fresh(state) && fresh(trans)
      ensures forall x, y :: 0 <= x <= lenA && 0 <= y <= lenB ==> pat[x, y] && trans[x, y] == Esc
    {
      pat := new bool[lenA + 1, lenB + 1]((_, _) => true);
      state := new int[lenA + 1, lenB + 1]((_, _) => 0);
      trans := new Source[lenA + 1, lenB + 1]((_, _) => Esc);
    }

    ghost predicate Sized(lenA: nat, lenB: nat) {
      && pat.Length0 == state.Length0 == trans.Length0 == lenA + 1
      && pat.Length1 == state.Length1 == trans.Length1 == lenB + 1
    }

    /** One round of the inner loop: the entry for the positions `x` and `y`, from the three entries one
        token back. */
    method FillEntry(strA: Word, strB: Word, x: nat, y: nat, escA: bool, escB: bool, numA: nat, numB: nat)
      requires Sized(|strA|, |strB|) && x <= |strA| && y <= |strB|
      requires x >= (if escA then 2 else 1) && y >= if escB then 2 else 1
      modifies pat, state, trans
      ensures
        var lastA, lastB := x - (if escA then 2 else 1), y - if escB then 2 else 1;
        var same := strA[x - 1] == strB[y - 1] && (strA[x - 1] != STAR || escA);
        var up := UpdateState(old(state[lastA, y]), old(pat[lastA, y]), !same && strA[x - 1] == STAR && !escA, numA, numB);
        var left := UpdateState(old(state[x, lastB]), old(pat[x, lastB]), !same && strB[y - 1] == STAR && !escB, numB, numA);
        && Cell(pat[x, y], state[x, y], trans[x, y]) == Choose(same, up, left, old(state[lastA, lastB]))
        && state[x, y] <= up && state[x, y] <= left && (same ==> state[x, y] <= old(state[lastA, lastB]))
        && (state[x, y] == up || state[x, y] == left || (same && state[x, y] == old(state[lastA, lastB])))
      ensures forall u, v :: 0 <= u <= |strA| && 0 <= v <= |strB| && (u != x || v != y) ==>
        pat[u, v] == old(pat[u, v]) && state[u, v] == old(state[u, v]) && trans[u, v] == old(trans[u, v])
    {
      var lastA, lastB := x - (if escA then 2 else 1), y - if escB then 2 else 1;
      if strA[x - 1] == strB[y - 1] && (strA[x - 1] != STAR || escA) {
        var up := UpdateState(state[lastA, y], pat[lastA, y], false, numA, numB);
        var left := UpdateState(state[x, lastB], pat[x, lastB], false, numB, numA);
        var lastPosValue := state[lastA, lastB];
        if up < lastPosValue || left < lastPosValue {
          pat[x, y] := false;
          if up >= left {
            state[x, y], trans[x, y] := left, UpPos;
          } else {
            state[x, y], trans[x, y] := up, LeftPos;
          }
        } else if up == lastPosValue || left == lastPosValue {
          state[x, y] := lastPosValue;
          pat[x, y] := false;
          if up >= left {
            state[x, y], trans[x, y] := left, UpPos;
          } else {
            state[x, y], trans[x, y] := up, LeftPos;
          }
        } else {
          state[x, y], pat[x, y], trans[x, y] := lastPosValue, true, UpperLeft;
        }
      } else {
        var up := UpdateState(state[lastA, y], pat[lastA, y], strA[x - 1] == STAR && !escA, numA, numB);
        var left := UpdateState(state[x, lastB], pat[x, lastB], strB[y - 1] == STAR && !escB, numB, numA);
        pat[x, y] := false;
        if up >= left {
          state[x, y], trans[x, y] := left, UpPos;
        } else {
          state[x, y], trans[x, y] := up, LeftPos;
        }
      }
    }

    // -------------------------------------------------------------- against the specification

    /** The entry for `i` and `j` tokens is in its place. */
    ghost predicate Stored(a: Pattern, b: Pattern, numA: nat, numB: nat, i: nat, j: nat)
      requires Sized(|Render(a)|, |Render(b)|) && i <= |a| && j <= |b|
      reads pat, state
    {
      PosIn(a, i);
      PosIn(b, j);
      var e := Entry(a, b, numA, numB, i, j);
      pat[Pos(a, i), Pos(b, j)] == e.pat && state[Pos(a, i), Pos(b, j)] == e.state
    }

    /** First row and column, and all entries up to row `k`, in that row up to column `l`. */
    ghost predicate Filled(a: Pattern, b: Pattern, numA: nat, numB: nat, k: nat, l: nat)
      requires Sized(|Render(a)|, |Render(b)|)
      reads pat, state
    {
      forall i, j :: 0 <= i <= |a| && 0 <= j <= |b| && Passed(i, j, k, l) ==> Stored(a, b, numA, numB, i, j)
    }

    ghost predicate Traced(a: Pattern, b: Pattern, numA: nat, numB: nat, k: nat, l: nat)
      requires Sized(|Render(a)|, |Render(b)|)
      reads trans
    {
      forall x, y :: 0 <= x <= |Render(a)| && 0 <= y <= |Render(b)| ==> trans[x, y] == SourceSoFar(a, b, numA, numB, k, l, x, y)
    }

    /** Entry `k`, `l` follows the entries before it. */
    method PutEntry(strA: Word, strB: Word, x: nat, y: nat, escA: bool, escB: bool, numA: nat, numB: nat,
                    ghost a: Pattern, ghost b: Pattern, ghost k: nat, ghost l: nat)
      requires strA == Render(a) && strB == Render(b) && Sized(|strA|, |strB|)
      requires 0 < k <= |a| && 0 < l <= |b| && x == Pos(a, k) && y == Pos(b, l)
      requires (escA <==> Escaped(a[k - 1])) && (escB <==> Escaped(b[l - 1]))
      requires Filled(a, b, numA, numB, k, l - 1) && Traced(a, b, numA, numB, k, l - 1)
      modifies pat, state, trans
      ensures Filled(a, b, numA, numB, k, l) && Traced(a, b, numA, numB, k, l)
      ensures x <= |strA| && y <= |strB| && state[x, y] == Entry(a, b, numA, numB, k, l).state
    {
      hide Render, Pos, UpdateState, Choose, SourceSoFar;
      EndOfToken(a, k);
      EndOfToken(b, l);
      assert Stored(a, b, numA, numB, k - 1, l) && Stored(a, b, numA, numB, k, l - 1) && Stored(a, b, numA, numB, k - 1, l - 1);
      label before:
      FillEntry(strA, strB, x, y, escA, escB, numA, numB);
      assert Cell(pat[x, y], state[x, y], trans[x, y]) == Entry(a, b, numA, numB, k, l);
      forall i, j | 0 <= i <= |a| && 0 <= j <= |b| && Passed(i, j, k, l) ensures Stored(a, b, numA, numB, i, j) {
        PosIn(a, i);
        PosIn(b, j);
        if i != k || j != l {
          assert old@before(Stored(a, b, numA, numB, i, j));
          OtherPlace(a, b, i, j, k, l);
        }
      }
      forall u, v | 0 <= u <= |strA| && 0 <= v <= |strB| ensures trans[u, v] == SourceSoFar(a, b, numA, numB, k, l, u, v) {
        SourceNext(a, b, numA, numB, k, l, u, v);
      }
    }

    // -------------------------------------------------------------- first column and first row

    /** Entries of the first column up to token `k`, and nothing yet behind them. */
    ghost predicate ColumnFilled(a: Pattern, lenB: nat, numA: nat, numB: nat, k: nat)
      requires Sized(|Render(a)|, lenB) && k <= |a|
      reads pat, state
    {
      && (forall i :: 0 <= i <= k ==> ColumnEntry(a, lenB, numA, numB, i))
      && forall x :: Pos(a, k) < x <= |Render(a)| ==> pat[x, 0]
    }

    ghost predicate ColumnEntry(a: Pattern, lenB: nat, numA: nat, numB: nat, i: nat)
      requires Sized(|Render(a)|, lenB) && i <= |a|
      reads pat, state
    {
      PosIn(a, i);
      pat[Pos(a, i), 0] == Border(a, i, numA, numB).pat && state[Pos(a, i), 0] == Border(a, i, numA, numB).state
    }

    ghost predicate RowFilled(b: Pattern, lenA: nat, numA: nat, numB: nat, l: nat)
      requires Sized(lenA, |Render(b)|) && l <= |b|
      reads pat, state
    {
      && (forall j :: 0 <= j <= l ==> RowEntry(b, lenA, numA, numB, j))
      && forall y :: Pos(b, l) < y <= |Render(b)| ==> pat[0, y]
    }

    ghost predicate RowEntry(b: Pattern, lenA: nat, numA: nat, numB: nat, j: nat)
      requires Sized(lenA, |Render(b)|) && j <= |b|
      reads pat, state
    {
      PosIn(b, j);
      pat[0, Pos(b, j)] == Border(b, j, numB, numA).pat && state[0, Pos(b, j)] == Border(b, j, numB, numA).state
    }

    /** One round of the first loop, at the start of token `k`. */
    method ColumnStep(strA: Word, ghost lenB: nat, x: nat, numA: nat, numB: nat, ghost a: Pattern, ghost k: nat) returns (x': nat)
      requires strA == Render(a) && Sized(|strA|, lenB) && k < |a| && x == Pos(a, k) + 1 && ColumnFilled(a, lenB, numA, numB, k)
      modifies pat, state
      ensures x' == Pos(a, k + 1) + 1 && ColumnFilled(a, lenB, numA, numB, k + 1)
      ensures forall u, v :: 0 <= u <= |strA| && 0 < v <= lenB ==> pat[u, v] == old(pat[u, v]) && state[u, v] == old(state[u, v])
    {
      hide Render, Pos, UpdateState;
      EndOfToken(a, k + 1);
      PlainToken(a, k);
      assert ColumnEntry(a, lenB, numA, numB, k);
      label before:
      x' := x;
      pat[x', 0] := false;
      if strA[x' - 1] == BACKSLASH {
        x' := x' + 1;
        state[x', 0] := UpdateState(state[x' - 2, 0], pat[x' - 2, 0], false, numA, numB);
      } else if strA[x' - 1] == STAR {
        state[x', 0] := UpdateState(state[x' - 1, 0], pat[x' - 1, 0], true, numA, numB);
      } else {
        state[x', 0] := UpdateState(state[x' - 1, 0], pat[x' - 1, 0], false, numA, numB);
      }
      forall i | 0 <= i <= k + 1 ensures ColumnEntry(a, lenB, numA, numB, i) {
        PosIn(a, i);
        if i <= k {
          assert old@before(ColumnEntry(a, lenB, numA, numB, i));
          PosMono(a, i, k);
        }
      }
      x' := x' + 1;
    }

    method RowStep(strB: Word, ghost lenA: nat, y: nat, numA: nat, numB: nat, ghost b: Pattern, ghost l: nat) returns (y': nat)
      requires strB == Render(b) && Sized(lenA, |strB|) && l < |b| && y == Pos(b, l) + 1 && RowFilled(b, lenA, numA, numB, l)
      modifies pat, state
      ensures y' == Pos(b, l + 1) + 1 && RowFilled(b, lenA, numA, numB, l + 1)
      ensures forall u, v :: 0 < u <= lenA && 0 <= v <= |strB| ==> pat[u, v] == old(pat[u, v]) && state[u, v] == old(state[u, v])
      ensures pat[0, 0] == old(pat[0, 0]) && state[0, 0] == old(state[0, 0])
    {
      hide Render, Pos, UpdateState;
      EndOfToken(b, l + 1);
      PlainToken(b, l);
      assert RowEntry(b, lenA, numA, numB, l);
      label before:
      y' := y;
      pat[0, y'] := false;
      if strB[y' - 1] == BACKSLASH {
        y' := y' + 1;
        state[0, y'] := UpdateState(state[0, y' - 2], pat[0, y' - 2], false, numB, numA);
      } else if strB[y' - 1] == STAR {
        state[0, y'] := UpdateState(state[0, y' - 1], pat[0, y' - 1], true, numB, numA);
      } else {
        state[0, y'] := UpdateState(state[0, y' - 1], pat[0, y' - 1], false, numB, numA);
      }
      forall j | 0 <= j <= l + 1 ensures RowEntry(b, lenA, numA, numB, j) {
        PosIn(b, j);
        if j <= l {
          assert old@before(RowEntry(b, lenA, numA, numB, j));
          PosMono(b, j, l);
        }
      }
      y' := y' + 1;
    }

    method FillBorders(strA: Word, strB: Word, numA: nat, numB: nat, ghost a: Pattern, ghost b: Pattern)
      requires strA == Render(a) && strB == Render(b) && Sized(|strA|, |strB|)
      requires forall x, y :: 0 <= x <= |strA| && 0 <= y <= |strB| ==> pat[x, y]
      modifies pat, state
      ensures Filled(a, b, numA, numB, 0, 0)
    {
      hide Render, Pos, UpdateState;
      PosZero(a, 0);
      PosZero(b, 0);
      PosEnd(a);
      PosEnd(b);
      pat[0, 0] := true;
      state[0, 0] := 0;
      var x: nat := 1;
      ghost var k: nat := 0;
      while x < |strA| + 1
        invariant k <= |a| && x == Pos(a, k) + 1 && ColumnFilled(a, |strB|, numA, numB, k)
        invariant forall y :: 0 < y <= |strB| ==> pat[0, y]
        decreases |a| - k
      {
        PosStrict(a, k);
        x := ColumnStep(strA, |strB|, x, numA, numB, a, k);
        k := k + 1;
      }
      PosStrict(a, k);
      var y: nat := 1;
      ghost var l: nat := 0;
      assert RowEntry(b, |strA|, numA, numB, 0) by { assert ColumnEntry(a, |strB|, numA, numB, 0); }
      while y < |strB| + 1
        invariant l <= |b| && y == Pos(b, l) + 1 && RowFilled(b, |strA|, numA, numB, l)
        invariant k == |a| && forall i :: 0 <= i <= k ==> ColumnEntry(a, |strB|, numA, numB, i)
        decreases |b| - l
      {
        PosStrict(b, l);
        label before:
        y := RowStep(strB, |strA|, y, numA, numB, b, l);
        forall i | 0 <= i <= k ensures ColumnEntry(a, |strB|, numA, numB, i) {
          assert old@before(ColumnEntry(a, |strB|, numA, numB, i));
          PosIn(a, i);
        }
        l := l + 1;
      }
      PosStrict(b, l);
      forall i, j | 0 <= i <= |a| && 0 <= j <= |b| && Passed(i, j, 0, 0) ensures Stored(a, b, numA, numB, i, j) {
        PosZero(a, i);
        PosZero(b, j);
        if i == 0 { assert RowEntry(b, |strA|, numA, numB, j); } else { assert ColumnEntry(a, |strB|, numA, numB, i); }
      }
    }

    // -------------------------------------------------------------- the table

    /** The inner loop: row `k`, whose token ends at `x`; keeps the smallest value seen. */
    method FillRow(strA: Word, strB: Word, x: nat, escA: bool, numA: nat, numB: nat, min: int, ghost a: Pattern, ghost b: Pattern, ghost k: nat)
      returns (min': int)
      requires strA == Render(a) && strB == Render(b) && Sized(|strA|, |strB|)
      requires 0 < k <= |a| && x == Pos(a, k) && (escA <==> Escaped(a[k - 1]))
      requires Filled(a, b, numA, numB, k - 1, |b|) && Traced(a, b, numA, numB, k - 1, |b|)
      modifies pat, state, trans
      ensures Filled(a, b, numA, numB, k, |b|) && Traced(a, b, numA, numB, k, |b|)
      ensures min' <= min && forall j :: 1 <= j <= |b| ==> min' <= Entry(a, b, numA, numB, k, j).state
      ensures min' == min || exists j :: 1 <= j <= |b| && min' == Entry(a, b, numA, numB, k, j).state
    {
      hide Render, Pos, UpdateState, Stored, SourceSoFar, Entry;
      PosEnd(b);
      RowTurn(a, b, numA, numB, k - 1);
      min' := min;
      var y: nat := 1;
      ghost var l: nat := 0;
      while y < |strB| + 1
        invariant l <= |b| && y == Pos(b, l) + 1
        invariant Filled(a, b, numA, numB, k, l) && Traced(a, b, numA, numB, k, l)
        invariant min' <= min && forall j :: 1 <= j <= l ==> min' <= Entry(a, b, numA, numB, k, j).state
        invariant min' == min || exists j :: 1 <= j <= l && min' == Entry(a, b, numA, numB, k, j).state
        decreases |b| - l
      {
        PosStrict(b, l);
        EndOfToken(b, l + 1);
        var escB := strB[y - 1] == BACKSLASH;
        if escB { y := y + 1; }
        PutEntry(strA, strB, x, y, escA, escB, numA, numB, a, b, k, l + 1);
        if state[x, y] < min' { min' := state[x, y]; }
        y := y + 1;
        l := l + 1;
      }
      PosStrict(b, l);
    }

    /** From the end of one row to the start of the next. */
    lemma {:induction false} RowTurn(a: Pattern, b: Pattern, numA: nat, numB: nat, k: nat)
      requires Sized(|Render(a)|, |Render(b)|) && k < |a|
      requires Filled(a, b, numA, numB, k, |b|) && Traced(a, b, numA, numB, k, |b|)
      ensures Filled(a, b, numA, numB, k + 1, 0) && Traced(a, b, numA, numB, k + 1, 0)
    {
      hide Stored, IndexAt, Entry;
    }

    /** ConstructTables. It fills all rows and returns the last entry, or gives up after the first row. */
    method ConstructTables(strA: Word, strB: Word, numA: nat, numB: nat, threshold: int, ghost a: Pattern, ghost b: Pattern)
      returns (value: int)
      requires strA == Render(a) && strB == Render(b) && Sized(|strA|, |strB|) && threshold <= INT_MAX
      requires forall x, y :: 0 <= x <= |strA| && 0 <= y <= |strB| ==> pat[x, y] && trans[x, y] == Esc
      modifies pat, state, trans
      ensures value == if GivesUp(a, b, numA, numB, threshold) then INT_MAX else Entry(a, b, numA, numB, |a|, |b|).state
      ensures
        var rows := if GivesUp(a, b, numA, numB, threshold) then 1 else |a|;
        Filled(a, b, numA, numB, rows, |b|) && Traced(a, b, numA, numB, rows, |b|)
    {
      hide Render, Pos, UpdateState, Stored, SourceSoFar, Entry;
      PosEnd(a);
      FillBorders(strA, strB, numA, numB, a, b);
      FirstRow(a, b, numA, numB);
      var min := INT_MAX;
      var x: nat := 1;
      ghost var rows: nat := 0;
      while x < |strA| + 1
        invariant rows <= |a| && x == Pos(a, rows) + 1
        invariant Filled(a, b, numA, numB, rows, |b|) && Traced(a, b, numA, numB, rows, |b|)
        invariant if rows == 0 then min == INT_MAX else min < threshold && !GivesUp(a, b, numA, numB, threshold)
        decreases |a| - rows
      {
        PosStrict(a, rows);
        EndOfToken(a, rows + 1);
        var escA := strA[x - 1] == BACKSLASH;
        if escA { x := x + 1; }
        min := FillRow(strA, strB, x, escA, numA, numB, min, a, b, rows + 1);
        rows := rows + 1;
        if min >= threshold { return INT_MAX; }
        x := x + 1;
      }
      PosStrict(a, rows);
      LastEntry(a, b, numA, numB);
      value := state[|strA|, |strB|];
    }

    lemma {:induction false} FirstRow(a: Pattern, b: Pattern, numA: nat, numB: nat)
      requires Sized(|Render(a)|, |Render(b)|) && Filled(a, b, numA, numB, 0, 0)
      requires forall x, y :: 0 <= x <= |Render(a)| && 0 <= y <= |Render(b)| ==> trans[x, y] == Esc
      ensures Filled(a, b, numA, numB, 0, |b|) && Traced(a, b, numA, numB, 0, |b|)
    {
      hide Stored, IndexAt, Entry;
    }

    lemma {:induction false} LastEntry(a: Pattern, b: Pattern, numA: nat, numB: nat)
      requires Sized(|Render(a)|, |Render(b)|)
      ensures Filled(a, b, numA, numB, |a|, |b|) || (Filled(a, b, numA, numB, 0, 0) && b == []) ==>
        var e := Entry(a, b, numA, numB, |a|, |b|);
        pat[|Render(a)|, |Render(b)|] == e.pat && state[|Render(a)|, |Render(b)|] == e.state
    {
      hide Entry, Render, Pos;
      PosEnd(a);
      PosEnd(b);
      if Filled(a, b, numA, numB, |a|, |b|) || (Filled(a, b, numA, numB, 0, 0) && b == []) {
        assert Stored(a, b, numA, numB, |a|, |b|);
      }
    }

    // -------------------------------------------------------------- the trace

    ghost predicate AllSources(a: Pattern, b: Pattern, numA: nat, numB: nat)
      requires Sized(|Render(a)|, |Render(b)|)
      reads trans
    {
      forall x, y :: 0 <= x <= |Render(a)| && 0 <= y <= |Render(b)| ==> trans[x, y] == SourceAt(a, b, numA, numB, x, y)
    }

    /** The three inner loops, which differ in the positions they move. */
    method SlideBack(ghost a: Pattern, ghost b: Pattern, ghost numA: nat, ghost numB: nat, t: Trace, dx: nat, dy: nat) returns (t': Trace)
      requires Sized(|Render(a)|, |Render(b)|) && AllSources(a, b, numA, numB) && t.x <= |Render(a)| && t.y <= |Render(b)|
      requires dx <= 1 && dy <= 1 && dx + dy > 0
      ensures t' == Slide(a, b, numA, numB, t, dx, dy)
    {
      hide SourceAt;
      t' := t;
      while t'.x > 0 && t'.y > 0 && trans[t'.x, t'.y] == Esc
        invariant t'.x <= t.x && t'.y <= t.y
        invariant Slide(a, b, numA, numB, t', dx, dy) == Slide(a, b, numA, numB, t, dx, dy)
        decreases t'.x + t'.y
      {
        t' := Trace(t'.x - dx, t'.y - dy, t'.last, if t'.last then [BACKSLASH] + t'.str else t'.str);
      }
    }

    /** One round of the loop of MergePattern. */
    method TraceRound(strA: Word, ghost a: Pattern, ghost b: Pattern, ghost numA: nat, ghost numB: nat, t: Trace) returns (t': Trace)
      requires strA == Render(a) && Sized(|strA|, |Render(b)|) && AllSources(a, b, numA, numB)
      requires 0 < t.x <= |strA| && 0 < t.y <= |Render(b)| && SourceAt(a, b, numA, numB, t.x, t.y) != Esc
      ensures t' == TraceStep(a, b, numA, numB, t)
    {
      hide SourceAt, Slide, Entry, Render;
      t' := t;
      if trans[t.x, t.y] == UpperLeft {
        t' := SlideBack(a, b, numA, numB, Trace(t.x - 1, t.y - 1, true, [strA[t.x - 1]] + t.str), 1, 1);
      } else if trans[t.x, t.y] == UpPos {
        t' := SlideBack(a, b, numA, numB, Trace(t.x, t.y - 1, false, if t.last then [STAR] + t.str else t.str), 0, 1);
      } else if trans[t.x, t.y] == LeftPos {
        t' := SlideBack(a, b, numA, numB, Trace(t.x - 1, t.y, false, if t.last then [STAR] + t.str else t.str), 1, 0);
      }
    }

    /** The loop of MergePattern. Every round starts at a pair of token ends, so it always moves. */
    method TracePath(strA: Word, ghost a: Pattern, ghost b: Pattern, ghost numA: nat, ghost numB: nat, start: Trace) returns (t: Trace)
      requires strA == Render(a) && Sized(|strA|, |Render(b)|) && AllSources(a, b, numA, numB)
      requires start == TraceStart(a, b, numA, numB)
      ensures t == TraceBack(a, b, numA, numB, start)
    {
      hide SourceAt, TraceStep, TraceStart, Entry, Render, AllSources;
      t := start;
      while t.x > 0 && t.y > 0
        invariant t.x <= |strA| && t.y <= |Render(b)|
        invariant t.x == 0 || t.y == 0 || SourceAt(a, b, numA, numB, t.x, t.y) != Esc
        invariant TraceBack(a, b, numA, numB, t) == TraceBack(a, b, numA, numB, start)
        decreases t.x + t.y
      {
        t := TraceRound(strA, a, b, numA, numB, t);
      }
    }
  }

  // ---------------------------------------------------------------- MergePattern

  /** No value of the table leaves the range of an int. */
  lemma {:induction false} NoOverflow(a: Pattern, b: Pattern, numA: nat, numB: nat, i: nat, j: nat)
    requires i <= |a| && j <= |b|
    ensures
      var bound := Times(numA + numB, 2 * (i + j));
      -bound <= Entry(a, b, numA, numB, i, j).state <= bound
    decreases i + j
  {
    hide Times, Entry;
    BoundGrows(numA + numB, i + j);
    EntryStep(a, b, numA, numB, i, j);
    if i > 0 { NoOverflow(a, b, numA, numB, i - 1, j); }
    if j > 0 { NoOverflow(a, b, numA, numB, i, j - 1); }
    if i > 0 && j > 0 {
      BoundGrows(numA + numB, i + j - 1);
      NoOverflow(a, b, numA, numB, i - 1, j - 1);
    }
  }

  lemma {:induction false} BoundGrows(n: nat, k: nat)
    ensures Times(n, 0) == 0
    ensures k > 0 ==> Times(n, 2 * k) == Times(n, 2 * (k - 1)) + 2 * n
  {
    if k > 0 { assert n * (2 * k) == n * (2 * (k - 1)) + n * 2; }
  }

  /** An entry adds at most one update to one of its neighbours. */
  lemma {:induction false} EntryStep(a: Pattern, b: Pattern, numA: nat, numB: nat, i: nat, j: nat)
    requires i <= |a| && j <= |b|
    ensures
      var state := Entry(a, b, numA, numB, i, j).state;
      var most := 2 * (numA + numB);
      || (i == 0 && j == 0 && state == 0)
      || (i > 0 && -most <= state - Entry(a, b, numA, numB, i - 1, j).state <= most)
      || (j > 0 && -most <= state - Entry(a, b, numA, numB, i, j - 1).state <= most)
      || (i > 0 && j > 0 && state == Entry(a, b, numA, numB, i - 1, j - 1).state)
  {}

  /** MergePattern: for any two patterns it ends with the string traced through the table; unless the path keeps an
      escaped star for a wildcard this is the stored form of the merged pattern. */
  method MergePattern(strA: Word, strB: Word, numA: nat, numB: nat, ghost a: Pattern, ghost b: Pattern) returns (value: int, str: Word)
    requires strA == Render(a) && strB == Render(b) && Times(numA + numB, 2 * (|a| + |b|)) < INT_MAX
    ensures value == Entry(a, b, numA, numB, |a|, |b|).state
    ensures str == MergeString(a, b, numA, numB)
    ensures Clashes(a, b, numA, numB, |a|, |b|) == 0 ==> str == Render(Merged(a, b, numA, numB, |a|, |b|))
  {
    hide Entry, Render, SourceAt, Times, Merged, TraceBack, Clashes;
    var tables := new Tables(|strA|, |strB|);
    var ignored := tables.ConstructTables(strA, strB, numA, numB, INT_MAX, a, b);
    AllRows(tables, a, b, numA, numB);
    tables.LastEntry(a, b, numA, numB);
    value := tables.state[|strA|, |strB|];
    var pat := tables.pat[|strA|, |strB|];
    var start := Trace(|strA|, |strB|, pat, if pat then [] else [STAR]);
    var t := tables.TracePath(strA, a, b, numA, numB, start);
    str := t.str;
    if t.x != t.y && !(str != [] && str[0] == STAR) {
      str := [STAR] + str;
    }
    if Clashes(a, b, numA, numB, |a|, |b|) == 0 { MergeStringIsMerged(a, b, numA, numB); }
  }

  lemma {:induction false} FirstEntrySmall(a: Pattern, b: Pattern, numA: nat, numB: nat)
    requires Times(numA + numB, 2 * (|a| + |b|)) < INT_MAX
    ensures a != [] && b != [] ==> Entry(a, b, numA, numB, 1, 1).state < INT_MAX
  {
    hide Entry, Times;
    if a != [] && b != [] {
      NoOverflow(a, b, numA, numB, 1, 1);
      TimesMono(numA + numB, 4, 2 * (|a| + |b|));
    }
  }

  /** With the largest threshold only a table without columns is given up. */
  lemma {:induction false} AllRows(tables: Tables, a: Pattern, b: Pattern, numA: nat, numB: nat)
    requires tables.Sized(|Render(a)|, |Render(b)|) && Times(numA + numB, 2 * (|a| + |b|)) < INT_MAX
    requires
      var rows := if GivesUp(a, b, numA, numB, INT_MAX) then 1 else |a|;
      tables.Filled(a, b, numA, numB, rows, |b|) && tables.Traced(a, b, numA, numB, rows, |b|)
    ensures tables.AllSources(a, b, numA, numB)
    ensures tables.Filled(a, b, numA, numB, |a|, |b|) || (tables.Filled(a, b, numA, numB, 0, 0) && b == [])
  {
    hide Entry, Render, IndexAt, Times;
    FirstEntrySmall(a, b, numA, numB);
    assert GivesUp(a, b, numA, numB, INT_MAX) ==> b == [];
  }

  predicate Passed(i: nat, j: nat, k: nat, l: nat) { i == 0 || j == 0 || i < k || (i == k && j <= l) }

  function SourceSoFar(a: Pattern, b: Pattern, numA: nat, numB: nat, k: nat, l: nat, x: nat, y: nat): Source {
    if Passed(IndexAt(a, x) + 1, IndexAt(b, y) + 1, k + 1, l + 1) then SourceAt(a, b, numA, numB, x, y) else Esc
  }

  lemma {:induction false} PosIn(p: Pattern, k: nat)
    requires k <= |p|
    ensures Pos(p, k) <= |Render(p)|
  {
    PosMono(p, k, |p|);
    assert p[..|p|] == p;
  }

  lemma {:induction false} OtherPlace(a: Pattern, b: Pattern, i: nat, j: nat, k: nat, l: nat)
    requires i <= |a| && k <= |a| && j <= |b| && l <= |b| && (i != k || j != l)
    ensures Pos(a, i) != Pos(a, k) || Pos(b, j) != Pos(b, l)
  {
    hide Pos;
    if i != k && Pos(a, i) == Pos(a, k) { IndexIsUnique(a, i, k); }
    if j != l && Pos(b, j) == Pos(b, l) { IndexIsUnique(b, j, l); }
  }

  /** What the last characters of a token show. */
  lemma {:induction false} EndOfToken(p: Pattern, k: nat)
    requires 0 < k <= |p|
    ensures Pos(p, k) == Pos(p, k - 1) + (if Escaped(p[k - 1]) then 2 else 1) && Pos(p, k) <= |Render(p)|
    ensures Render(p)[Pos(p, k) - 1] == if p[k - 1].Wild? then STAR else p[k - 1].c
    ensures Render(p)[Pos(p, k - 1)] == BACKSLASH <==> Escaped(p[k - 1])
  {
    hide Render, Pos;
    TokenSize(p, k - 1);
    ReadToken(p, k - 1);
  }

  lemma {:induction false} SourceNext(a: Pattern, b: Pattern, numA: nat, numB: nat, k: nat, l: nat, x: nat, y: nat)
    requires 0 < k <= |a| && 0 < l <= |b|
    ensures SourceSoFar(a, b, numA, numB, k, l, x, y)
         == if x == Pos(a, k) && y == Pos(b, l) then Entry(a, b, numA, numB, k, l).source else SourceSoFar(a, b, numA, numB, k, l - 1, x, y)
  {
    hide Entry, IndexAt, Pos;
    IndexFound(a, k);
    IndexFound(b, l);
  }

  lemma {:induction false} PosEnd(p: Pattern)
    ensures Pos(p, |p|) == |Render(p)| && Pos(p, 0) == 0
  {
    assert p[..|p|] == p && p[..0] == [];
  }

  lemma {:induction false} PosStrict(p: Pattern, k: nat)
    requires k <= |p|
    ensures Pos(p, k) < |Render(p)| <==> k < |p|
    ensures Pos(p, k) <= |Render(p)|
  {
    PosEnd(p);
    PosMono(p, k, |p|);
  }

  /** Only a wildcard shows an unescaped star. */
  lemma {:induction false} PlainToken(p: Pattern, k: nat)
    requires k < |p|
    ensures Pos(p, k) < |Render(p)|
    ensures !Escaped(p[k]) ==> (Render(p)[Pos(p, k)] == STAR <==> p[k].Wild?)
    ensures Escaped(p[k]) ==> p[k].Lit?
  {
    ReadToken(p, k);
  }
}
