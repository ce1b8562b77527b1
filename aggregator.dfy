/**
 * Grouped aggregation: the integer aggregator (MIN, MAX, SUM, AVG, COUNT
 * over an int field) and the string aggregator (COUNT only). Each keeps a
 * map from group to running value that every merged tuple updates in
 * place; the group of a tuple is its group-by field, or one single group
 * (Java's `null` key, here `None`) when there is no grouping. Java's
 * 32-bit `int` arithmetic is written out: sums and counts wrap, and
 * division truncates toward zero.
 */
module Aggregation {
  import opened Common

  /** The group-by index that means "no grouping". */
  const NoGrouping: int := -1

  /** The aggregation operators the integer aggregator's switch handles. */
  datatype Op = Min | Max | Sum | Avg | Count

  function Abs(x: int): nat {
    if x < 0 then -x else x
  }

  function MaxInt(a: int, b: int): int {
    if a >= b then a else b
  }

  function MinInt(a: int, b: int): int {
    if a <= b then a else b
  }

  /** The facts about natural-number division that truncated division rests on. */
  lemma NatDiv(A: nat, B: nat)
    requires B > 0
    ensures A == (A / B) * B + A % B && 0 <= A % B < B
    ensures A / B <= A
  {
    MulAtLeast(A / B, B);
  }

  lemma {:induction false} MulAtLeast(n: nat, m: nat)
    requires m >= 1
    ensures n <= n * m
    decreases m
  {
    if m > 1 {
      MulAtLeast(n, m - 1);
      assert n * m == n * (m - 1) + n;
    }
  }

  /**
   * Integer division rounded toward zero: the remainder is smaller than
   * the divisor in size and has the sign of the dividend.
   */
  function TruncDiv(a: int, b: int): (q: int)
    requires b != 0
    ensures Abs(a - q * b) < Abs(b)
    ensures a >= 0 ==> a - q * b >= 0
    ensures a <= 0 ==> a - q * b <= 0
    ensures Abs(q) <= Abs(a)
  {
    var n: int := Abs(a) / Abs(b);
    var q := if (a >= 0) == (b > 0) then n else -n;
    TruncDivRemainder(a, b, q);
    q
  }

  /** The quotient of the magnitudes, given the sign of the true quotient, leaves the remainder `TruncDiv` promises. */
  lemma TruncDivRemainder(a: int, b: int, q: int)
    requires b != 0
    requires q == var n: int := Abs(a) / Abs(b); if (a >= 0) == (b > 0) then n else -n
    ensures Abs(a - q * b) < Abs(b)
    ensures a >= 0 ==> a - q * b >= 0
    ensures a <= 0 ==> a - q * b <= 0
    ensures Abs(q) <= Abs(a)
  {
    var A: int, B: int := Abs(a), Abs(b);
    var n: int := A / B;
    var m: int := A % B;
    assert A == n * B + m && 0 <= m < B && n <= A by {
      NatDiv(A, B);
    }
    assert a - q * b == if a >= 0 then m else -m by {
      MulNeg(n, B);
      if a >= 0 && b > 0 {
        assert q * b == n * B;
      } else if a >= 0 {
        assert q * b == (-n) * (-B);
      } else if b > 0 {
        assert q * b == (-n) * B;
      } else {
        assert q * b == n * (-B);
      }
    }
    assert Abs(q) == n;
  }

  lemma MulNeg(x: int, y: int)
    ensures (-x) * y == -(x * y) && x * (-y) == -(x * y) && (-x) * (-y) == x * y
  {
  }

  /** Java's `/` on `int`: the truncated quotient, wrapped (only MIN_VALUE / -1 wraps). */
  function JavaDiv(a: int, b: int): (q: int)
    requires b != 0
    ensures IsInt32(q)
    ensures IsInt32(TruncDiv(a, b)) ==> q == TruncDiv(a, b)
  {
    Wrap32Id(TruncDiv(a, b));
    Wrap32(TruncDiv(a, b))
  }

  /** A value already in range is its own 32-bit wrap. */
  lemma Wrap32Id(x: int)
    ensures IsInt32(x) ==> Wrap32(x) == x
  {
  }

  /** Adding to a wrapped value and wrapping again is wrapping the exact sum. */
  lemma Wrap32Add(x: int, y: int)
    ensures Wrap32(Wrap32(x) + y) == Wrap32(x + y)
  {
    var w := Wrap32(x);
    var k := (w - x) / 0x1_0000_0000;
    assert w - x == k * 0x1_0000_0000;
    assert (w + y + 0x8000_0000) == (x + y + 0x8000_0000) + k * 0x1_0000_0000;
  }

  /** The group of a tuple: `None` without grouping, otherwise its group-by field. */
  function GroupKey(gbfield: int, t: Tuple): Option<Field>
    requires gbfield == NoGrouping || 0 <= gbfield < |t.fields|
  {
    if gbfield == NoGrouping then None else Some(t.fields[gbfield])
  }

  /**
   * The integer aggregator's three maps: the value reported per group,
   * and, for AVG, the running sum and count per group.
   */
  datatype Groups = Groups(aggregate: map<Option<Field>, int>, sums: map<Option<Field>, int>, counts: map<Option<Field>, int>)

  const NoGroups := Groups(map[], map[], map[])

  /** Counting one more tuple of group `key`: a new group starts at 1, an existing one adds 1 (wrapping). */
  function Bump(m: map<Option<Field>, int>, key: Option<Field>): (r: map<Option<Field>, int>)
    ensures key in r && r == m[key := r[key]]
    ensures key !in m ==> r[key] == 1
    ensures key in m ==> r[key] == Wrap32(m[key] + 1) && (m[key] == 0x7fff_ffff ==> r[key] == -0x8000_0000)
  {
    m[key := if key in m then Wrap32(m[key] + 1) else 1]
  }

  /**
   * Merging one aggregate value `a` of group `key`. MAX/MIN keep the larger
   * or smaller of the stored value and `a`; SUM and COUNT add with 32-bit
   * wrap-around; AVG updates the running sum and count and stores their
   * truncated quotient, which throws (here `Runtime`) if the count has
   * wrapped to zero. A group's first value is stored as is (1 for COUNT).
   */
  function MergeValue(op: Op, s: Groups, key: Option<Field>, a: int): (r: Result<Groups>)
    ensures r.Ok? ==> key in r.value.aggregate && r.value.aggregate == s.aggregate[key := r.value.aggregate[key]]
    ensures op != Avg ==> r.Ok? && r.value.sums == s.sums && r.value.counts == s.counts
    ensures op == Avg && r.Ok? ==>
              key in r.value.sums && key in r.value.counts &&
              r.value.sums == s.sums[key := r.value.sums[key]] && r.value.counts == s.counts[key := r.value.counts[key]]
    ensures r.Err? ==> op == Avg && key in s.aggregate
    ensures key !in s.aggregate ==> r.Ok? && r.value.aggregate[key] == if op == Count then 1 else a
  {
    match op
    case Max =>
      Ok(s.(aggregate := s.aggregate[key := if key in s.aggregate then MaxInt(s.aggregate[key], a) else a]))
    case Min =>
      Ok(s.(aggregate := s.aggregate[key := if key in s.aggregate then MinInt(s.aggregate[key], a) else a]))
    case Sum =>
      Ok(s.(aggregate := s.aggregate[key := if key in s.aggregate then Wrap32(s.aggregate[key] + a) else a]))
    case Count =>
      Ok(s.(aggregate := Bump(s.aggregate, key)))
    case Avg =>
      if key !in s.aggregate then
        Ok(Groups(s.aggregate[key := a], s.sums[key := a], s.counts[key := 1]))
      else if key !in s.sums || key !in s.counts then
        // unboxing the missing running sum or count
        Err(NullPointer)
      else
        var newSum := Wrap32(s.sums[key] + a);
        var count := Wrap32(s.counts[key] + 1);
        if count == 0 then Err(Runtime)
        else Ok(Groups(s.aggregate[key := JavaDiv(newSum, count)], s.sums[key := newSum], s.counts[key := count]))
  }

  /** Merging the (group, value) pairs in order, starting from no groups. */
  function MergeAll(op: Op, items: seq<(Option<Field>, int)>): Result<Groups>
  {
    if items == [] then Ok(NoGroups)
    else
      var prev := MergeAll(op, items[..|items| - 1]);
      var last := items[|items| - 1];
      if prev.Err? then prev else MergeValue(op, prev.value, last.0, last.1)
  }

  /** The values merged into group `k`, in merge order. */
  function GroupValues(items: seq<(Option<Field>, int)>, k: Option<Field>): (vs: seq<int>)
    ensures |vs| <= |items|
  {
    if items == [] then []
    else
      var prev := GroupValues(items[..|items| - 1], k);
      var last := items[|items| - 1];
      if last.0 == k then prev + [last.1] else prev
  }

  /** The largest of a non-empty list. */
  function SeqMax(vs: seq<int>): (m: int)
    requires vs != []
    ensures m in vs && forall v | v in vs :: v <= m
  {
    if |vs| == 1 then vs[0]
    else
      assert vs == vs[..|vs| - 1] + [vs[|vs| - 1]];
      MaxInt(SeqMax(vs[..|vs| - 1]), vs[|vs| - 1])
  }

  /** The smallest of a non-empty list. */
  function SeqMin(vs: seq<int>): (m: int)
    requires vs != []
    ensures m in vs && forall v | v in vs :: m <= v
  {
    if |vs| == 1 then vs[0]
    else
      assert vs == vs[..|vs| - 1] + [vs[|vs| - 1]];
      MinInt(SeqMin(vs[..|vs| - 1]), vs[|vs| - 1])
  }

  function SeqSum(vs: seq<int>): int {
    if vs == [] then 0 else SeqSum(vs[..|vs| - 1]) + vs[|vs| - 1]
  }

  /** What each operator should report for a group whose values are `vs`, in Java int arithmetic. */
  function Reference(op: Op, vs: seq<int>): int
    requires vs != []
  {
    match op
    case Max => SeqMax(vs)
    case Min => SeqMin(vs)
    case Sum => Wrap32(SeqSum(vs))
    case Count => |vs|
    case Avg => JavaDiv(Wrap32(SeqSum(vs)), |vs|)
  }

  /**
   * `g` is what merging `items` should give: a group for exactly the keys
   * that occur, each reporting its operator applied to the values merged
   * into it, and for AVG the running sum (wrapped) and count of those values.
   */
  ghost predicate Summarizes(op: Op, g: Groups, items: seq<(Option<Field>, int)>) {
    && (forall k :: k in g.aggregate <==> GroupValues(items, k) != [])
    && (forall k | k in g.aggregate :: g.aggregate[k] == Reference(op, GroupValues(items, k)))
    && (op == Avg ==> forall k :: (k in g.sums <==> k in g.aggregate) && (k in g.counts <==> k in g.aggregate))
    && (op == Avg ==> forall k | k in g.aggregate ::
          g.sums[k] == Wrap32(SeqSum(GroupValues(items, k))) && g.counts[k] == |GroupValues(items, k)|)
  }

  /**
   * Merging a whole input from no groups gives its summary (see
   * `Summarizes`), while fewer than 2^31 tuples are merged.
   */
  lemma {:induction false} MergeAllReference(op: Op, items: seq<(Option<Field>, int)>)
    requires |items| < 0x8000_0000 && forall i | 0 <= i < |items| :: IsInt32(items[i].1)
    ensures MergeAll(op, items).Ok? && Summarizes(op, MergeAll(op, items).value, items)
  {
    if items != [] {
      var n := |items| - 1;
      var pre := items[..n];
      MergeAllReference(op, pre);
      assert items == pre + [items[n]];
      MergeKeepsSummary(op, MergeAll(op, pre).value, pre, items[n].0, items[n].1);
    }
  }

  /** Merging one more pair into the summary of `pre` gives the summary of `pre + [(key, a)]`. */
  lemma MergeKeepsSummary(op: Op, s: Groups, pre: seq<(Option<Field>, int)>, key: Option<Field>, a: int)
    requires Summarizes(op, s, pre) && |pre| + 1 < 0x8000_0000 && IsInt32(a)
    ensures MergeValue(op, s, key, a).Ok?
    ensures Summarizes(op, MergeValue(op, s, key, a).value, pre + [(key, a)])
  {
    var items := pre + [(key, a)];
    var vs := GroupValues(pre, key);
    assert items[..|items| - 1] == pre;
    assert GroupValues(items, key) == vs + [a];
    if key in s.aggregate {
      MergeStep(op, s, key, a, vs);
    } else {
      MergeFirst(op, s, key, a);
    }
    var g := MergeValue(op, s, key, a).value;
    forall k | k != key
      ensures GroupValues(items, k) == GroupValues(pre, k)
    {
    }
    assert Summarizes(op, g, items) by {
      SummaryKeys(op, s, pre, key, a);
      SummaryValues(op, s, pre, key, a);
    }
  }

  /** A group's first merge leaves it reporting the reference value of its one value. */
  lemma MergeFirst(op: Op, s: Groups, key: Option<Field>, a: int)
    requires key !in s.aggregate && IsInt32(a)
    ensures MergeValue(op, s, key, a).Ok?
    ensures MergeValue(op, s, key, a).value.aggregate[key] == Reference(op, [a])
    ensures op == Avg ==>
              MergeValue(op, s, key, a).value.sums[key] == Wrap32(SeqSum([a])) &&
              MergeValue(op, s, key, a).value.counts[key] == 1
  {
    assert SeqSum([a]) == a by {
      assert [a][..0] == [];
    }
    Wrap32Id(a);
  }

  /** One merge into an existing group moves its value from the reference of `vs` to that of `vs + [a]`. */
  lemma MergeStep(op: Op, s: Groups, key: Option<Field>, a: int, vs: seq<int>)
    requires vs != [] && |vs| + 1 < 0x8000_0000 && key in s.aggregate
    requires s.aggregate[key] == Reference(op, vs)
    requires op == Avg ==>
               key in s.sums && key in s.counts && s.sums[key] == Wrap32(SeqSum(vs)) && s.counts[key] == |vs|
    ensures MergeValue(op, s, key, a).Ok?
    ensures MergeValue(op, s, key, a).value.aggregate[key] == Reference(op, vs + [a])
    ensures op == Avg ==>
              MergeValue(op, s, key, a).value.sums[key] == Wrap32(SeqSum(vs + [a])) &&
              MergeValue(op, s, key, a).value.counts[key] == |vs| + 1
  {
    var vs' := vs + [a];
    assert vs'[..|vs'| - 1] == vs && vs'[|vs'| - 1] == a && |vs'| != 1;
    var prior := s.aggregate[key];
    var r := MergeValue(op, s, key, a);
    match op {
      case Max =>
        assert r.value.aggregate[key] == MaxInt(prior, a);
        assert SeqMax(vs') == MaxInt(SeqMax(vs), a);
      case Min =>
        assert r.value.aggregate[key] == MinInt(prior, a);
        assert SeqMin(vs') == MinInt(SeqMin(vs), a);
      case Sum =>
        assert r.value.aggregate[key] == Wrap32(prior + a);
        assert SeqSum(vs') == SeqSum(vs) + a;
        Wrap32Add(SeqSum(vs), a);
      case Count =>
        assert r.value.aggregate[key] == Wrap32(prior + 1);
        Wrap32Id(|vs| + 1);
      case Avg =>
        MergeStepAvg(s, key, a, vs);
    }
  }

  /** The AVG case of `MergeStep`: the running sum and count move on by `a` and by one. */
  lemma MergeStepAvg(s: Groups, key: Option<Field>, a: int, vs: seq<int>)
    requires |vs| + 1 < 0x8000_0000 && key in s.aggregate && key in s.sums && key in s.counts
    requires s.sums[key] == Wrap32(SeqSum(vs)) && s.counts[key] == |vs|
    ensures MergeValue(Avg, s, key, a).Ok?
    ensures MergeValue(Avg, s, key, a).value.aggregate[key] == JavaDiv(Wrap32(SeqSum(vs + [a])), |vs| + 1)
    ensures MergeValue(Avg, s, key, a).value.sums[key] == Wrap32(SeqSum(vs + [a]))
    ensures MergeValue(Avg, s, key, a).value.counts[key] == |vs| + 1
  {
    var vs' := vs + [a];
    assert vs'[..|vs'| - 1] == vs;
    var total := SeqSum(vs);
    assert SeqSum(vs') == total + a;
    var newSum := Wrap32(s.sums[key] + a);
    assert newSum == Wrap32(total + a) by {
      Wrap32Add(total, a);
    }
    assert Wrap32(s.counts[key] + 1) == |vs| + 1 by {
      Wrap32Id(|vs| + 1);
    }
  }

  /** The key half of `MergeKeepsSummary`. */
  lemma SummaryKeys(op: Op, s: Groups, pre: seq<(Option<Field>, int)>, key: Option<Field>, a: int)
    requires Summarizes(op, s, pre)
    requires MergeValue(op, s, key, a).Ok?
    requires forall k | k != key :: GroupValues(pre + [(key, a)], k) == GroupValues(pre, k)
    requires GroupValues(pre + [(key, a)], key) != []
    ensures var g := MergeValue(op, s, key, a).value;
      && (forall k :: k in g.aggregate <==> GroupValues(pre + [(key, a)], k) != [])
      && (op == Avg ==> forall k :: (k in g.sums <==> k in g.aggregate) && (k in g.counts <==> k in g.aggregate))
  {
  }

  /** The value half of `MergeKeepsSummary`. */
  lemma SummaryValues(op: Op, s: Groups, pre: seq<(Option<Field>, int)>, key: Option<Field>, a: int)
    requires Summarizes(op, s, pre)
    requires MergeValue(op, s, key, a).Ok?
    requires forall k | k != key :: GroupValues(pre + [(key, a)], k) == GroupValues(pre, k)
    requires var g := MergeValue(op, s, key, a).value; var vs := GroupValues(pre + [(key, a)], key);
      && vs != [] && key in g.aggregate && g.aggregate[key] == Reference(op, vs)
      && (op == Avg ==> key in g.sums && key in g.counts && g.sums[key] == Wrap32(SeqSum(vs)) && g.counts[key] == |vs|)
    ensures var g := MergeValue(op, s, key, a).value;
      && (forall k | k in g.aggregate :: g.aggregate[k] == Reference(op, GroupValues(pre + [(key, a)], k)))
      && (op == Avg ==> forall k | k in g.aggregate ::
            g.sums[k] == Wrap32(SeqSum(GroupValues(pre + [(key, a)], k))) && g.counts[k] == |GroupValues(pre + [(key, a)], k)|)
  {
  }

  /** Counting the keys in order from no groups, as the string aggregator's COUNT does. */
  function CountAll(keys: seq<Option<Field>>): map<Option<Field>, int> {
    if keys == [] then map[] else Bump(CountAll(keys[..|keys| - 1]), keys[|keys| - 1])
  }

  /**
   * Counting a whole input gives a group for exactly the keys that occur,
   * holding the number of times each occurs, while fewer than 2^31 tuples
   * are merged.
   */
  lemma {:induction false} CountAllOccurrences(keys: seq<Option<Field>>)
    requires |keys| < 0x8000_0000
    ensures forall k :: k in CountAll(keys) <==> k in keys
    ensures forall k | k in CountAll(keys) :: CountAll(keys)[k] == multiset(keys)[k] <= |keys|
  {
    if keys != [] {
      var n := |keys| - 1;
      var pre, x := keys[..n], keys[n];
      CountAllOccurrences(pre);
      assert keys == pre + [x];
      assert multiset(keys) == multiset(pre) + multiset{x};
      var m := CountAll(pre);
      if x in m {
        Wrap32Id(m[x] + 1);
      }
    }
  }

  /** One output row of a grouped aggregate: the group's field, then its value. */
  function GroupRow(k: Option<Field>, v: int): Tuple
    requires k.Some?
  {
    Tuple([k.value, IntField(v)], None)
  }

  /** The rows a grouped `open` appends, one per key in the order the keys are visited. */
  function GroupRows(agg: map<Option<Field>, int>, order: seq<Option<Field>>): (rows: seq<Tuple>)
    requires forall i | 0 <= i < |order| :: order[i] in agg && order[i].Some?
    ensures |rows| == |order|
  {
    if order == [] then []
    else
      var last := order[|order| - 1];
      GroupRows(agg, order[..|order| - 1]) + [GroupRow(last, agg[last])]
  }

  /**
   * Visiting every key once gives one row per group: every group has a row
   * holding its field and value, and no two rows share a group field.
   */
  lemma {:induction false} GroupRowsOnePerGroup(agg: map<Option<Field>, int>, order: seq<Option<Field>>)
    requires Distinct(order) && (forall k :: k in order <==> k in agg) && None !in agg
    ensures var rows := GroupRows(agg, order);
      && (forall i | 0 <= i < |rows| :: rows[i] == GroupRow(order[i], agg[order[i]]))
      && (forall k | k in agg :: exists i | 0 <= i < |rows| :: rows[i] == GroupRow(k, agg[k]))
      && (forall i, j | 0 <= i < j < |rows| :: rows[i].fields[0] != rows[j].fields[0])
  {
    GroupRowsAt(agg, order);
    var rows := GroupRows(agg, order);
    forall k | k in agg
      ensures exists i | 0 <= i < |rows| :: rows[i] == GroupRow(k, agg[k])
    {
      var i :| 0 <= i < |order| && order[i] == k;
      assert rows[i] == GroupRow(k, agg[k]);
    }
  }

  /** Row `i` is the row of the `i`-th key visited. */
  lemma {:induction false} GroupRowsAt(agg: map<Option<Field>, int>, order: seq<Option<Field>>)
    requires forall i | 0 <= i < |order| :: order[i] in agg && order[i].Some?
    ensures forall i | 0 <= i < |order| :: GroupRows(agg, order)[i] == GroupRow(order[i], agg[order[i]])
  {
    if order != [] {
      var n := |order| - 1;
      GroupRowsAt(agg, order[..n]);
    }
  }

  /**
   * The result iterator of either aggregator. `open` appends the result
   * rows to `outputs` (so a second `open` repeats them) and resets the
   * cursor; `close` drops the list (Java's `null`), after which the
   * other operations throw.
   */
  class AggregateIterator {
    /** Whether the aggregator groups (its group-by index is not NO_GROUPING). */
    const grouped: bool
    var outputs: Option<seq<Tuple>>
    var currIndex: int

    ghost predicate Valid()
      reads this
    {
      && 0 <= currIndex
      && (outputs.Some? ==> currIndex <= |outputs.value|)
      && (outputs.None? ==> currIndex == 0)
    }

    /** The rows `next` has still to return. */
    function Remaining(): seq<Tuple>
      reads this
      requires Valid()
    {
      if outputs.Some? then outputs.value[currIndex..] else []
    }

    constructor(grouped: bool)
      ensures this.grouped == grouped && outputs == Some([]) && currIndex == 0 && Valid()
    {
      this.grouped := grouped;
      outputs := Some([]);
      currIndex := 0;
    }

    /**
     * `open`, reading the aggregator's map as it is now. Without grouping
     * it appends the single value (a missing `null` group throws when the
     * value is unboxed); with grouping one row per group, in the order the
     * map's key set yields them (`order`).
     */
    method Open(aggregate: map<Option<Field>, int>) returns (r: Result<()>, ghost order: seq<Option<Field>>)
      requires Valid() && (grouped ==> None !in aggregate)
      modifies this
      ensures Valid() && currIndex == 0
      ensures !grouped && None in aggregate && old(outputs).Some? ==>
                r == Ok(()) && outputs == Some(old(outputs).value + [Tuple([IntField(aggregate[None])], None)])
      ensures !grouped && (None !in aggregate || old(outputs).None?) ==> r == Err(NullPointer) && outputs == old(outputs)
      ensures grouped ==> Distinct(order) && |order| == |aggregate| && forall k :: k in order <==> k in aggregate
      ensures grouped && old(outputs).Some? ==> r == Ok(()) && outputs == Some(old(outputs).value + GroupRows(aggregate, order))
      ensures grouped && old(outputs).None? ==>
                outputs == None && (r.Ok? <==> aggregate.Keys == {}) && (r.Err? ==> r.error == NullPointer)
    {
      currIndex := 0;
      order := [];
      if !grouped {
        if None !in aggregate || outputs.None? {
          return Err(NullPointer), order;
        }
        outputs := Some(outputs.value + [Tuple([IntField(aggregate[None])], None)]);
        return Ok(()), order;
      }
      var keys := Enumerate(aggregate.Keys);
      order := keys;
      if outputs.None? {
        if keys != [] {
          // the first row is added to a list that is no longer there
          return Err(NullPointer), order;
        }
        return Ok(()), order;
      }
      var rows := outputs.value;
      for i := 0 to |keys|
        invariant rows == old(outputs).value + GroupRows(aggregate, keys[..i])
      {
        assert keys[..i + 1][..i] == keys[..i];
        rows := rows + [GroupRow(keys[i], aggregate[keys[i]])];
      }
      assert keys[..|keys|] == keys;
      outputs := Some(rows);
      r := Ok(());
    }

    /** `hasNext`: whether rows remain; throws once the iterator is closed. */
    function HasNext(): (r: Result<bool>)
      reads this
      requires Valid()
      ensures r.Ok? <==> outputs.Some?
      ensures r.Err? ==> r.error == NullPointer
      ensures r.Ok? ==> (r.value <==> Remaining() != [])
    {
      if outputs.None? then Err(NullPointer) else Ok(currIndex < |outputs.value|)
    }

    /** `next`: the next row in order, or NoSuchElementException past the end. */
    method Next() returns (r: Result<Tuple>)
      requires Valid()
      modifies this
      ensures Valid() && outputs == old(outputs)
      ensures old(outputs).None? ==> r == Err(NullPointer) && currIndex == old(currIndex)
      ensures old(outputs).Some? && old(Remaining()) == [] ==> r == Err(NoSuchElement) && currIndex == old(currIndex)
      ensures old(Remaining()) != [] ==> r == Ok(old(Remaining())[0]) && Remaining() == old(Remaining())[1..]
    {
      var h := HasNext();
      if h.Err? {
        return Err(h.error);
      }
      if !h.value {
        return Err(NoSuchElement);
      }
      r := Ok(outputs.value[currIndex]);
      currIndex := currIndex + 1;
    }

    /** `rewind`: back to the first row. */
    method Rewind()
      requires Valid()
      modifies this
      ensures Valid() && outputs == old(outputs) && currIndex == 0
      ensures outputs.Some? ==> Remaining() == outputs.value
    {
      currIndex := 0;
    }

    /** `close`: the cursor is reset and the rows are dropped. */
    method Close()
      modifies this
      ensures Valid() && outputs == None && currIndex == 0
    {
      currIndex := 0;
      outputs := None;
    }
  }

  /** The integer aggregator: MIN, MAX, SUM, AVG or COUNT of an int field per group. */
  class IntegerAggregator {
    const gbfield: int
    const afield: int
    const what: Op
    var aggregate: map<Option<Field>, int>
    var sums: map<Option<Field>, int>
    var counts: map<Option<Field>, int>

    function State(): Groups
      reads this
    {
      Groups(aggregate, sums, counts)
    }

    /** AVG keeps a sum and a count for every group; the keys follow the grouping. */
    ghost predicate Valid()
      reads this
    {
      && (what == Avg ==> forall k :: (k in sums <==> k in aggregate) && (k in counts <==> k in aggregate))
      && (gbfield == NoGrouping ==> forall k | k in aggregate :: k == None)
      && (gbfield != NoGrouping ==> None !in aggregate)
    }

    /** The fields a merge reads are present, and the aggregate field is an int field. */
    predicate Mergeable(t: Tuple) {
      && (gbfield == NoGrouping || 0 <= gbfield < |t.fields|)
      && 0 <= afield < |t.fields| && t.fields[afield].IntField? && IsInt32(t.fields[afield].i)
    }

    constructor(gbfield: int, afield: int, what: Op)
      ensures this.gbfield == gbfield && this.afield == afield && this.what == what
      ensures State() == NoGroups && Valid()
    {
      this.gbfield, this.afield, this.what := gbfield, afield, what;
      aggregate, sums, counts := map[], map[], map[];
    }

    /** `mergeTupleIntoGroup`: the switch on the operator, updating the tuple's own group (see `MergeValue`). */
    method MergeTupleIntoGroup(tup: Tuple) returns (r: Result<()>)
      requires Valid() && Mergeable(tup)
      modifies this
      ensures Valid()
      ensures var m := MergeValue(what, old(State()), GroupKey(gbfield, tup), tup.fields[afield].i);
        && (m.Ok? ==> r == Ok(()) && State() == m.value)
        && (m.Err? ==> r == Err(m.error) && State() == old(State()))
    {
      var a := tup.fields[afield].i;
      var g := if gbfield == NoGrouping then None else Some(tup.fields[gbfield]);
      match what {
        case Max =>
          aggregate := aggregate[g := if g !in aggregate then a else MaxInt(aggregate[g], a)];
        case Min =>
          aggregate := aggregate[g := if g !in aggregate then a else MinInt(aggregate[g], a)];
        case Sum =>
          aggregate := aggregate[g := if g !in aggregate then a else Wrap32(aggregate[g] + a)];
        case Count =>
          aggregate := aggregate[g := if g !in aggregate then 1 else Wrap32(aggregate[g] + 1)];
        case Avg =>
          if g !in aggregate {
            aggregate, sums, counts := aggregate[g := a], sums[g := a], counts[g := 1];
          } else {
            var newSum := Wrap32(sums[g] + a);
            var count := Wrap32(counts[g] + 1);
            if count == 0 {
              // integer division by zero
              return Err(Runtime);
            }
            var avg := JavaDiv(newSum, count);
            counts, sums, aggregate := counts[g := count], sums[g := newSum], aggregate[g := avg];
          }
      }
      return Ok(());
    }

    /** `iterator`: a fresh result iterator over this aggregator's groups. */
    method Iterator() returns (it: AggregateIterator)
      ensures fresh(it) && it.grouped == (gbfield != NoGrouping) && it.outputs == Some([]) && it.currIndex == 0 && it.Valid()
    {
      it := new AggregateIterator(gbfield != NoGrouping);
    }
  }

  /** The string aggregator: only COUNT, per group. */
  class StringAggregator {
    const gbfield: int
    const afield: int
    const what: Op
    var aggregate: map<Option<Field>, int>

    ghost predicate Valid()
      reads this
    {
      && (gbfield == NoGrouping ==> forall k | k in aggregate :: k == None)
      && (gbfield != NoGrouping ==> None !in aggregate)
    }

    constructor(gbfield: int, afield: int, what: Op)
      ensures this.gbfield == gbfield && this.afield == afield && this.what == what
      ensures aggregate == map[] && Valid()
    {
      this.gbfield, this.afield, this.what := gbfield, afield, what;
      aggregate := map[];
    }

    /**
     * `mergeTupleIntoGroup`: any operator but COUNT is an
     * IllegalArgumentException that leaves the counts alone; COUNT adds
     * one to the tuple's group.
     */
    method MergeTupleIntoGroup(tup: Tuple) returns (r: Result<()>)
      requires Valid() && (gbfield == NoGrouping || 0 <= gbfield < |tup.fields|)
      modifies this
      ensures Valid()
      ensures what != Count ==> r == Err(IllegalArgument) && aggregate == old(aggregate)
      ensures what == Count ==> r == Ok(()) && aggregate == Bump(old(aggregate), GroupKey(gbfield, tup))
    {
      var g := if gbfield == NoGrouping then None else Some(tup.fields[gbfield]);
      if what != Count {
        return Err(IllegalArgument);
      }
      aggregate := aggregate[g := if g !in aggregate then 1 else Wrap32(aggregate[g] + 1)];
      return Ok(());
    }

    /** `iterator`: a fresh result iterator over this aggregator's groups. */
    method Iterator() returns (it: AggregateIterator)
      ensures fresh(it) && it.grouped == (gbfield != NoGrouping) && it.outputs == Some([]) && it.currIndex == 0 && it.Valid()
    {
      it := new AggregateIterator(gbfield != NoGrouping);
    }
  }
}
