/** The collector's table of candidate blocks, kept sorted by insertion in place. */
module Candidates {

  datatype Cand = NoCand | Cand(block: nat, score: int)

  /** Puts a candidate before the first one with a lower score. */
  function Insert(l: seq<Cand>, c: Cand): seq<Cand>
    requires c.Cand? && forall i :: 0 <= i < |l| ==> l[i].Cand?
  {
    if l == [] then [c]
    else if l[0].score < c.score then [c] + l
    else [l[0]] + Insert(l[1..], c)
  }

  ghost predicate AllCands(l: seq<Cand>)
  {
    forall i :: 0 <= i < |l| ==> l[i].Cand?
  }

  /** Insertion sort of the candidates in the order they are found. */
  function Sorted(l: seq<Cand>): (r: seq<Cand>)
    requires AllCands(l)
    ensures AllCands(r) && |r| == |l|
  {
    if l == [] then []
    else
      var rest := Sorted(l[..|l| - 1]);
      InsertAt(rest, l[|l| - 1], Place(rest, l[|l| - 1]));
      Insert(rest, l[|l| - 1])
  }

  function Min(a: nat, b: nat): nat
  {
    if a < b then a else b
  }

  function Take(l: seq<Cand>, m: nat): seq<Cand>
  {
    l[..Min(m, |l|)]
  }

  /** Scores do not increase, and equal scores stay in the order they came. */
  ghost predicate Ordered(l: seq<Cand>)
    requires AllCands(l)
  {
    forall i, j :: 0 <= i < j < |l| ==>
      l[i].score > l[j].score || (l[i].score == l[j].score && l[i].block < l[j].block)
  }

  /** Where a candidate goes: the first row with a lower score. */
  function Place(l: seq<Cand>, c: Cand): (p: nat)
    requires c.Cand? && AllCands(l)
    ensures p <= |l|
    ensures forall i :: 0 <= i < p ==> l[i].score >= c.score
    ensures p < |l| ==> l[p].score < c.score
  {
    if l == [] || l[0].score < c.score then 0 else 1 + Place(l[1..], c)
  }

  lemma {:induction false} InsertAt(l: seq<Cand>, c: Cand, p: nat)
    requires c.Cand? && AllCands(l) && p <= |l|
    requires forall i :: 0 <= i < p ==> l[i].score >= c.score
    requires p < |l| ==> l[p].score < c.score
    ensures Insert(l, c) == l[..p] + [c] + l[p..]
  {
    if p > 0 {
      InsertAt(l[1..], c, p - 1);
      assert l[..p] + [c] + l[p..] == [l[0]] + (l[1..][..p - 1] + [c] + l[1..][p - 1..]);
    }
  }

  lemma {:induction false} InsertKeeps(l: seq<Cand>, c: Cand)
    requires c.Cand? && AllCands(l)
    ensures AllCands(Insert(l, c)) && multiset(Insert(l, c)) == multiset(l) + multiset{c}
  {
    var p := Place(l, c);
    InsertAt(l, c, p);
    InsertMultiset(l, c, p);
  }

  lemma InsertMultiset(l: seq<Cand>, c: Cand, p: nat)
    requires p <= |l|
    ensures multiset(l[..p] + [c] + l[p..]) == multiset(l) + multiset{c}
  {
    var a, b := l[..p], l[p..];
    assert l == a + b;
    assert multiset(a + [c] + b) == multiset(a) + multiset{c} + multiset(b);
  }

  /** Inserting the candidate found last keeps the order. */
  lemma {:induction false} InsertOrdered(l: seq<Cand>, c: Cand)
    requires c.Cand? && AllCands(l) && Ordered(l) && AllCands(Insert(l, c))
    requires forall i :: 0 <= i < |l| ==> l[i].block < c.block
    ensures Ordered(Insert(l, c))
  {
    var p := Place(l, c);
    InsertAt(l, c, p);
    PlacedOrdered(l, c, p);
  }

  lemma PlacedOrdered(l: seq<Cand>, c: Cand, p: nat)
    requires c.Cand? && AllCands(l) && Ordered(l) && p <= |l|
    requires forall i :: 0 <= i < |l| ==> l[i].block < c.block
    requires forall i :: 0 <= i < p ==> l[i].score >= c.score
    requires p < |l| ==> l[p].score < c.score
    ensures AllCands(l[..p] + [c] + l[p..]) && Ordered(l[..p] + [c] + l[p..])
  {
    var r := l[..p] + [c] + l[p..];
    forall i | 0 <= i < |r| ensures r[i] == if i < p then l[i] else if i == p then c else l[i - 1] {
    }
    forall i | p <= i < |l| ensures l[i].score < c.score {
      assert i == p || l[p].score >= l[i].score;
    }
  }

  /** The sort orders by falling score, is stable, and loses nothing. */
  lemma {:induction false} SortedIsOrdered(l: seq<Cand>)
    requires AllCands(l) && forall i, j :: 0 <= i < j < |l| ==> l[i].block < l[j].block
    ensures Ordered(Sorted(l)) && multiset(Sorted(l)) == multiset(l)
  {
    if l != [] {
      var n := |l| - 1;
      SortedIsOrdered(l[..n]);
      var rest := Sorted(l[..n]);
      assert l == l[..n] + [l[n]];
      forall i | 0 <= i < |rest| ensures rest[i].block < l[n].block {
        assert rest[i] in multiset(rest);
        assert rest[i] in l[..n];
      }
      InsertKeeps(rest, l[n]);
      InsertOrdered(rest, l[n]);
    }
  }

  /** Cutting a sorted table to `m` rows before an insertion makes no difference to
      its first `m` rows afterwards. */
  lemma {:induction false} InsertIntoCut(l: seq<Cand>, c: Cand, m: nat)
    requires c.Cand? && AllCands(l)
    ensures AllCands(Take(l, m))
    ensures Take(Insert(Take(l, m), c), m) == Take(Insert(l, c), m)
  {
    var p := Place(l, c);
    InsertAt(l, c, p);
    if m >= |l| {
      assert Take(l, m) == l;
    } else if p <= m {
      InsertAt(l[..m], c, p);
      assert (l[..m][..p] + [c] + l[..m][p..])[..m] == (l[..p] + [c] + l[p..])[..m];
    } else {
      InsertAt(l[..m], c, m);
      assert (l[..m] + [c])[..m] == (l[..p] + [c] + l[p..])[..m];
    }
  }

  /** The table: the rows in use come first. */
  ghost predicate Holding(table: seq<Cand>, l: seq<Cand>)
  {
    && AllCands(l) && |l| <= |table|
    && (forall i :: 0 <= i < |l| ==> table[i] == l[i])
    && forall i :: |l| <= i < |table| ==> table[i].NoCand?
  }

  /** Moves the rows from `at` on one row down; the last one is lost. */
  method ShiftDown(rows: seq<Cand>, at: nat) returns (table: seq<Cand>)
    requires at < |rows|
    ensures |table| == |rows| && table[..at] == rows[..at] && table[at + 1..] == rows[at..|rows| - 1]
  {
    table := rows;
    var reorder: int := |table| - 2;
    while reorder >= at
      invariant at - 1 <= reorder <= |rows| - 2 && |table| == |rows|
      invariant forall i :: 0 <= i <= reorder + 1 ==> table[i] == rows[i]
      invariant forall i :: reorder + 2 <= i < |rows| ==> table[i] == rows[i - 1]
    {
      table := table[reorder + 1 := table[reorder]];
      reorder := reorder - 1;
    }
  }

  /** Inserts a candidate into the table in place; the table holds the first rows
      of the sorted list. */
  method InsertCandidate(rows: seq<Cand>, block: nat, score: int, ghost l: seq<Cand>) returns (table: seq<Cand>)
    requires Holding(rows, l)
    ensures |table| == |rows|
    ensures Holding(table, Take(Insert(l, Cand(block, score)), |rows|))
  {
    table := rows;
    var c := Cand(block, score);
    var candIx := 0;
    while candIx < |table|
      invariant candIx <= |l|
      invariant forall i :: 0 <= i < candIx ==> l[i].score >= score
      invariant table == rows
    {
      if table[candIx].NoCand? {
        InsertAt(l, c, candIx);
        table := table[candIx := c];
        return;
      } else if table[candIx].score < score {
        InsertAt(l, c, candIx);
        table := ShiftDown(table, candIx);
        table := table[candIx := c];
        var m := Min(|rows|, |l| + 1);
        forall i | candIx < i < m ensures table[i] == Insert(l, c)[i] {
          assert table[i] == table[candIx + 1..][i - candIx - 1] == rows[i - 1];
        }
        forall i | 0 <= i < candIx ensures table[i] == Insert(l, c)[i] {
          assert table[i] == table[..candIx][i];
        }
        forall i | m <= i < |table| ensures table[i].NoCand? {
          assert table[i] == table[candIx + 1..][i - candIx - 1] == rows[i - 1];
        }
        return;
      }
      candIx := candIx + 1;
    }
    InsertAt(l, c, |l|);
  }
}
