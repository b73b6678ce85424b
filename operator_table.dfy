/** The parser's priority index. Every present operator char has a priority;
    the distinct priorities in use, from the highest down, are numbered
    0, 1, 2, ... (their ranks), and the operation-order map keeps one bucket
    per rank. `rebuildPriorityIndex` tabulates rank by priority; this module
    defines that table and proves what the map relies on. */
module OperatorTables {

  /** Every present operator has a non-negative priority (`addOperator` and
      `changeOperatorPriority` clamp at 0, `removeOperator` also clears the
      presence flag). */
  ghost predicate NonNegative(present: seq<bool>, prio: seq<int>) {
    forall c :: 0 <= c < |present| && c < |prio| && present[c] ==> prio[c] >= 0
  }

  /** Some present operator has priority `p`. */
  ghost predicate Used(present: seq<bool>, prio: seq<int>, p: int)
    requires |present| == |prio|
  {
    exists c :: 0 <= c < |present| && present[c] && prio[c] == p
  }

  /** The highest priority of a present operator that is above -1, or -1. */
  function MaxPriority(present: seq<bool>, prio: seq<int>): (m: int)
    requires |present| == |prio|
    ensures m >= -1
    ensures forall c :: 0 <= c < |present| && present[c] ==> prio[c] <= m
    ensures m >= 0 ==> Used(present, prio, m)
    decreases |present|
  {
    if |present| == 0 then -1
    else
      var n := |present| - 1;
      var m := MaxPriority(present[..n], prio[..n]);
      if present[n] && prio[n] > m then prio[n]
      else
        assert forall c :: 0 <= c < n ==> present[..n][c] == present[c] && prio[..n][c] == prio[c];
        m
  }

  /** Which of the priorities 0 .. max are used. */
  ghost function Marks(present: seq<bool>, prio: seq<int>): (marks: seq<bool>)
    requires |present| == |prio|
    ensures |marks| == MaxPriority(present, prio) + 1
  {
    seq(MaxPriority(present, prio) + 1, p => Used(present, prio, p))
  }

  /** How many of the priorities above `p` (up to the last mark) are used. */
  function Above(marks: seq<bool>, p: int): nat
    requires -1 <= p < |marks|
    decreases |marks| - p
  {
    if p + 1 == |marks| then 0 else (if marks[p + 1] then 1 else 0) + Above(marks, p + 1)
  }

  /** `opIndexByPrio`: the rank of each used priority 0 .. max, -1 for the
      unused ones; empty when no operator is present. */
  ghost function RankTable(present: seq<bool>, prio: seq<int>): (t: seq<int>)
    requires |present| == |prio|
    ensures |t| == MaxPriority(present, prio) + 1
  {
    var marks := Marks(present, prio);
    seq(|marks|, p requires 0 <= p < |marks| => if marks[p] then Above(marks, p) else -1)
  }

  /** `getIndexByPriority`: the table entry, or -1 outside the table. */
  function IndexByPriority(table: seq<int>, p: int): (r: int)
    ensures p < 0 || p >= |table| ==> r == -1
    ensures 0 <= p < |table| ==> r == table[p]
  {
    if p < 0 || p >= |table| then -1 else table[p]
  }

  /** `opIndexMapSize`: one more than the rank of priority 0, and 1 when no
      operator is present. */
  ghost function MapSize(present: seq<bool>, prio: seq<int>): (s: int)
    requires |present| == |prio|
    ensures s >= 0
  {
    var t := RankTable(present, prio);
    if |t| == 0 then 1 else IndexByPriority(t, 0) + 1
  }

  /** A used priority above `p` counts towards the ranks below it. */
  lemma {:induction false} AboveMonotone(marks: seq<bool>, p: int, q: int)
    requires -1 <= p < q < |marks| && marks[q]
    ensures Above(marks, p) >= Above(marks, q) + 1
    decreases q - p
  {
    if p + 1 < q {
      AboveMonotone(marks, p + 1, q);
    }
  }

  /** Ranks are never more than those of lower priorities. */
  lemma {:induction false} AboveAntitone(marks: seq<bool>, p: int, q: int)
    requires -1 <= p <= q < |marks|
    ensures Above(marks, p) >= Above(marks, q)
    decreases q - p
  {
    if p < q {
      AboveAntitone(marks, p + 1, q);
    }
  }

  /** A positive count always has a nearest used priority above. */
  lemma {:induction false} AboveWitness(marks: seq<bool>, p: int) returns (q: int)
    requires -1 <= p < |marks| && Above(marks, p) > 0
    ensures p < q < |marks| && marks[q] && Above(marks, q) == Above(marks, p) - 1
    decreases |marks| - p
  {
    if marks[p + 1] {
      q := p + 1;
    } else {
      q := AboveWitness(marks, p + 1);
    }
  }

  /** A priority has a rank exactly when some present operator has it. */
  lemma RankUsed(present: seq<bool>, prio: seq<int>, p: int)
    requires |present| == |prio| && NonNegative(present, prio)
    ensures IndexByPriority(RankTable(present, prio), p) >= 0 <==> Used(present, prio, p)
  {
    var t := RankTable(present, prio);
    if Used(present, prio, p) {
      var c :| 0 <= c < |present| && present[c] && prio[c] == p;
      assert 0 <= p < |t|;
    }
  }

  /** Higher priorities get strictly smaller ranks, so ascending map keys run
      from the highest priority to the lowest. */
  lemma RankDescending(present: seq<bool>, prio: seq<int>, p: int, q: int)
    requires |present| == |prio|
    requires var t := RankTable(present, prio); 0 <= p < q < |t| && t[p] >= 0 && t[q] >= 0
    ensures var t := RankTable(present, prio); t[q] < t[p]
  {
    AboveMonotone(Marks(present, prio), p, q);
  }

  /** The highest priority in use has rank 0. */
  lemma RankTop(present: seq<bool>, prio: seq<int>)
    requires |present| == |prio|
    requires |RankTable(present, prio)| > 0
    ensures var t := RankTable(present, prio); t[|t| - 1] == 0
  {
  }

  /** Ranks have no gaps: every positive rank has its predecessor at a higher
      used priority. */
  lemma RankDense(present: seq<bool>, prio: seq<int>, p: int) returns (q: int)
    requires |present| == |prio|
    requires var t := RankTable(present, prio); 0 <= p < |t| && t[p] > 0
    ensures var t := RankTable(present, prio); p < q < |t| && t[q] == t[p] - 1
  {
    q := AboveWitness(Marks(present, prio), p);
  }

  /** When priority 0 is in use, every used priority's rank is a key of a map
      of `opIndexMapSize` buckets. */
  lemma RankInMap(present: seq<bool>, prio: seq<int>, p: int)
    requires |present| == |prio| && NonNegative(present, prio)
    requires Used(present, prio, 0) && Used(present, prio, p)
    ensures 0 <= IndexByPriority(RankTable(present, prio), p) < MapSize(present, prio)
  {
    RankUsed(present, prio, p);
    RankUsed(present, prio, 0);
    AboveAntitone(Marks(present, prio), 0, p);
  }

  /** The table depends only on which chars are present and on their
      priorities: the priority stored for an absent char is irrelevant. */
  lemma {:induction false} MaxPriorityFrame(present: seq<bool>, prio: seq<int>, prio': seq<int>)
    requires |present| == |prio| == |prio'|
    requires forall c :: 0 <= c < |present| && present[c] ==> prio[c] == prio'[c]
    ensures MaxPriority(present, prio) == MaxPriority(present, prio')
    decreases |present|
  {
    if |present| > 0 {
      var n := |present| - 1;
      MaxPriorityFrame(present[..n], prio[..n], prio'[..n]);
    }
  }

  lemma RankFrame(present: seq<bool>, prio: seq<int>, prio': seq<int>)
    requires |present| == |prio| == |prio'|
    requires forall c :: 0 <= c < |present| && present[c] ==> prio[c] == prio'[c]
    ensures RankTable(present, prio) == RankTable(present, prio')
    ensures MapSize(present, prio) == MapSize(present, prio')
  {
    MaxPriorityFrame(present, prio, prio');
    assert forall p :: Used(present, prio, p) <==> Used(present, prio', p);
    assert Marks(present, prio) == Marks(present, prio');
  }

  /** With no operator present there are no ranks, and the map has one
      bucket. */
  lemma NoneUsed(present: seq<bool>, prio: seq<int>)
    requires |present| == |prio| && forall c :: 0 <= c < |present| ==> !present[c]
    ensures RankTable(present, prio) == [] && MapSize(present, prio) == 1
  {
    assert MaxPriority(present, prio) == -1;
  }

  /** `rebuildPriorityIndex`: the table and the map size from the operator
      arrays. Java sorts a copy of the used priorities and walks it from the
      top; marking the used priorities and walking the marks downwards
      assigns the same ranks. */
  method ComputeRanks(present: array<bool>, prio: array<int>) returns (table: seq<int>, mapSize: int)
    requires present.Length == prio.Length && NonNegative(present[..], prio[..])
    ensures table == RankTable(present[..], prio[..])
    ensures mapSize == MapSize(present[..], prio[..])
  {
    var maxPrio := HighestPriority(present, prio);
    if maxPrio < 0 {
      return [], 1;
    }
    var used := MarkUsed(present, prio, maxPrio);
    table := AssignRanks(used);
    mapSize := IndexByPriority(table, 0) + 1;
  }

  /** The first loop of `rebuildPriorityIndex`. */
  method HighestPriority(present: array<bool>, prio: array<int>) returns (maxPrio: int)
    requires present.Length == prio.Length
    ensures maxPrio == MaxPriority(present[..], prio[..])
  {
    maxPrio := -1;
    var i := 0;
    while i < present.Length
      invariant 0 <= i <= present.Length
      invariant maxPrio == MaxPriority(present[..i], prio[..i])
    {
      assert present[..i + 1][..i] == present[..i] && prio[..i + 1][..i] == prio[..i];
      if present[i] && prio[i] > maxPrio {
        maxPrio := prio[i];
      }
      i := i + 1;
    }
    assert present[..i] == present[..] && prio[..i] == prio[..];
  }

  /** Marks every priority some present operator has (where Java copies them
      out for sorting). */
  method MarkUsed(present: array<bool>, prio: array<int>, maxPrio: int) returns (used: array<bool>)
    requires present.Length == prio.Length && NonNegative(present[..], prio[..])
    requires maxPrio == MaxPriority(present[..], prio[..]) >= 0
    ensures fresh(used) && used[..] == Marks(present[..], prio[..])
  {
    used := new bool[maxPrio + 1](_ => false);
    var i := 0;
    while i < present.Length
      invariant 0 <= i <= present.Length
      invariant forall p :: 0 <= p <= maxPrio ==>
        (used[p] <==> exists c :: 0 <= c < i && present[c] && prio[c] == p)
    {
      if present[i] {
        assert prio[..][i] == prio[i] && present[..][i];
        used[prio[i]] := true;
      }
      i := i + 1;
    }
    ghost var marks := Marks(present[..], prio[..]);
    forall p | 0 <= p <= maxPrio
      ensures used[p] == marks[p]
    {
      if used[p] {
        var c :| 0 <= c < present.Length && present[c] && prio[c] == p;
        assert present[..][c] && prio[..][c] == p;
      }
      if marks[p] {
        var c :| 0 <= c < present.Length && present[..][c] && prio[..][c] == p;
      }
    }
  }

  /** The last loop of `rebuildPriorityIndex`: from the highest priority down,
      each used one takes the next rank. */
  method AssignRanks(used: array<bool>) returns (table: seq<int>)
    ensures |table| == used.Length
    ensures forall p :: 0 <= p < used.Length ==>
      table[p] == if used[p] then Above(used[..], p) else -1
  {
    ghost var marks := used[..];
    var idx := new int[used.Length](_ => -1);
    var rank := 0;
    var p := used.Length - 1;
    while p >= 0
      invariant -1 <= p < used.Length
      invariant rank == Above(marks, p)
      invariant forall q :: 0 <= q <= p ==> idx[q] == -1
      invariant forall q :: p < q < used.Length ==> idx[q] == if marks[q] then Above(marks, q) else -1
    {
      assert Above(marks, p - 1) == (if marks[p] then 1 else 0) + Above(marks, p);
      if used[p] {
        idx[p] := rank;
        rank := rank + 1;
      }
      p := p - 1;
    }
    table := idx[..];
  }
}
