/**
 * The join operator. `open` computes the whole result into an output
 * buffer: for an equality predicate it builds a hash table on the smaller
 * child (the first child on a tie) and probes it with the other; for any
 * other predicate it runs a nested loop, outer child first. `fetchNext`
 * then hands the buffered tuples out in order. Each child is modelled by
 * the sequence of tuples its iterator yields; the predicate is an
 * arbitrary `filter` on (first, second) tuples.
 */
module Joins {
  import opened Common

  /** The fields of `first` followed by those of `second`, with no record id. */
  function Concat(first: Tuple, second: Tuple): (t: Tuple)
    ensures |t.fields| == |first.fields| + |second.fields|
  {
    Tuple(first.fields + second.fields, None)
  }

  /** The inner loop of the nested-loop join for one outer tuple, in inner order. */
  function Matches(t1: Tuple, c2: seq<Tuple>, filter: (Tuple, Tuple) -> bool): seq<Tuple> {
    if c2 == [] then []
    else
      var t2 := c2[|c2| - 1];
      Matches(t1, c2[..|c2| - 1], filter) + if filter(t1, t2) then [Concat(t1, t2)] else []
  }

  /** The nested-loop join: outer-major, `t1 ++ t2` for every pair the filter accepts. */
  function NestedLoop(c1: seq<Tuple>, c2: seq<Tuple>, filter: (Tuple, Tuple) -> bool): seq<Tuple> {
    if c1 == [] then [] else NestedLoop(c1[..|c1| - 1], c2, filter) + Matches(c1[|c1| - 1], c2, filter)
  }

  /** Every tuple has the join field. */
  predicate HasField(c: seq<Tuple>, f: int) {
    forall t | t in c :: 0 <= f < |t.fields|
  }

  lemma HasFieldPrefix(c: seq<Tuple>, f: int, n: int)
    requires HasField(c, f) && 0 <= n <= |c|
    ensures HasField(c[..n], f)
  {
    forall t | t in c[..n]
      ensures 0 <= f < |t.fields|
    {
      var i :| 0 <= i < n && c[..n][i] == t;
      assert t == c[i];
    }
  }

  /** The tuples of `build` whose join field is `k`, in order. */
  function WithKey(build: seq<Tuple>, f: int, k: Field): seq<Tuple>
    requires HasField(build, f)
  {
    if build == [] then []
    else
      var t := build[|build| - 1];
      WithKey(build[..|build| - 1], f, k) + if t.fields[f] == k then [t] else []
  }

  /** The hash table built from `build`: each tuple appended to the bucket of its join field. */
  function Buckets(build: seq<Tuple>, f: int): map<Field, seq<Tuple>>
    requires HasField(build, f)
  {
    if build == [] then map[]
    else
      var m := Buckets(build[..|build| - 1], f);
      var t := build[|build| - 1];
      var k := t.fields[f];
      m[k := (if k in m then m[k] else []) + [t]]
  }

  /** Probing one bucket with one tuple: `bucketTuple ++ probeTuple` wherever `filter(probe, bucket)` holds. */
  function BucketMatches(p: Tuple, bucket: seq<Tuple>, filter: (Tuple, Tuple) -> bool): seq<Tuple> {
    if bucket == [] then []
    else
      var b := bucket[|bucket| - 1];
      BucketMatches(p, bucket[..|bucket| - 1], filter) + if filter(p, b) then [Concat(b, p)] else []
  }

  /** The probe loop, probe-major; a probe tuple whose key has no bucket adds nothing. */
  function Probe(probe: seq<Tuple>, f: int, table: map<Field, seq<Tuple>>, filter: (Tuple, Tuple) -> bool): seq<Tuple>
    requires HasField(probe, f)
  {
    if probe == [] then []
    else
      var p := probe[|probe| - 1];
      var k := p.fields[f];
      Probe(probe[..|probe| - 1], f, table, filter) + if k in table then BucketMatches(p, table[k], filter) else []
  }

  /**
   * The hash join as `open` runs it: the second child is the build side
   * when the first has strictly more tuples, otherwise the first is.
   */
  function HashJoin(c1: seq<Tuple>, c2: seq<Tuple>, f1: int, f2: int, filter: (Tuple, Tuple) -> bool): seq<Tuple>
    requires HasField(c1, f1) && HasField(c2, f2)
  {
    if |c1| > |c2| then Probe(c1, f1, Buckets(c2, f2), filter) else Probe(c2, f2, Buckets(c1, f1), filter)
  }

  /** The inner loop emits exactly the accepted pairs with `t1`. */
  lemma {:induction false} MatchesMembers(t1: Tuple, c2: seq<Tuple>, filter: (Tuple, Tuple) -> bool)
    ensures forall t :: t in Matches(t1, c2, filter) <==> exists t2 | t2 in c2 :: filter(t1, t2) && t == Concat(t1, t2)
  {
    if c2 != [] {
      var pre := c2[..|c2| - 1];
      MatchesMembers(t1, pre, filter);
      assert c2 == pre + [c2[|c2| - 1]];
    }
  }

  /** The nested-loop join emits `t1 ++ t2` for exactly the pairs of child tuples the filter accepts. */
  lemma {:induction false} NestedLoopMembers(c1: seq<Tuple>, c2: seq<Tuple>, filter: (Tuple, Tuple) -> bool)
    ensures forall t :: t in NestedLoop(c1, c2, filter) <==>
              exists t1, t2 | t1 in c1 && t2 in c2 :: filter(t1, t2) && t == Concat(t1, t2)
  {
    if c1 != [] {
      var pre := c1[..|c1| - 1];
      NestedLoopMembers(pre, c2, filter);
      MatchesMembers(c1[|c1| - 1], c2, filter);
      assert c1 == pre + [c1[|c1| - 1]];
    }
  }

  /** Each bucket holds the build tuples with its key, in build order; there is a bucket for exactly the keys that occur. */
  lemma {:induction false} BucketsAreKeyGroups(build: seq<Tuple>, f: int)
    requires HasField(build, f)
    ensures forall k :: k in Buckets(build, f) <==> WithKey(build, f, k) != []
    ensures forall k | k in Buckets(build, f) :: Buckets(build, f)[k] == WithKey(build, f, k)
  {
    if build != [] {
      HasFieldPrefix(build, f, |build| - 1);
      BucketsAreKeyGroups(build[..|build| - 1], f);
    }
  }

  /** A bucket holds exactly the build tuples with its key. */
  lemma {:induction false} WithKeyMembers(build: seq<Tuple>, f: int, k: Field)
    requires HasField(build, f)
    ensures forall b :: b in WithKey(build, f, k) <==> b in build && b.fields[f] == k
  {
    if build != [] {
      var pre := build[..|build| - 1];
      HasFieldPrefix(build, f, |build| - 1);
      assert build == pre + [build[|build| - 1]];
      WithKeyMembers(pre, f, k);
    }
  }

  /** Probing a bucket emits `b ++ p` for exactly the bucket tuples `b` with `filter(p, b)`. */
  lemma {:induction false} BucketMatchesMembers(p: Tuple, bucket: seq<Tuple>, filter: (Tuple, Tuple) -> bool)
    ensures forall t :: t in BucketMatches(p, bucket, filter) <==> exists b | b in bucket :: filter(p, b) && t == Concat(b, p)
  {
    if bucket != [] {
      var pre := bucket[..|bucket| - 1];
      BucketMatchesMembers(p, pre, filter);
      assert bucket == pre + [bucket[|bucket| - 1]];
    }
  }

  /**
   * Probing the table built from `build` emits `b ++ p` for exactly the
   * build tuples `b` and probe tuples `p` whose join fields are equal and
   * which `filter(p, b)` accepts.
   */
  lemma {:induction false} ProbeMembers(probe: seq<Tuple>, pf: int, build: seq<Tuple>, bf: int, filter: (Tuple, Tuple) -> bool)
    requires HasField(probe, pf) && HasField(build, bf)
    ensures forall t :: t in Probe(probe, pf, Buckets(build, bf), filter) <==>
              exists p, b | p in probe && b in build :: b.fields[bf] == p.fields[pf] && filter(p, b) && t == Concat(b, p)
  {
    if probe != [] {
      var pre := probe[..|probe| - 1];
      var p := probe[|probe| - 1];
      var k := p.fields[pf];
      ProbeMembers(pre, pf, build, bf, filter);
      assert probe == pre + [p];
      BucketsAreKeyGroups(build, bf);
      WithKeyMembers(build, bf, k);
      if k in Buckets(build, bf) {
        BucketMatchesMembers(p, WithKey(build, bf, k), filter);
      }
    }
  }

  /**
   * The hash join emits build-side fields first: with the first child no
   * larger, `t1 ++ t2` for the accepted pairs with equal join fields, the
   * filter being given (t2, t1); with the first child larger, `t2 ++ t1`,
   * the filter being given (t1, t2).
   */
  lemma HashJoinMembers(c1: seq<Tuple>, c2: seq<Tuple>, f1: int, f2: int, filter: (Tuple, Tuple) -> bool)
    requires HasField(c1, f1) && HasField(c2, f2)
    ensures |c1| <= |c2| ==> forall t :: t in HashJoin(c1, c2, f1, f2, filter) <==>
              exists t1, t2 | t1 in c1 && t2 in c2 :: t1.fields[f1] == t2.fields[f2] && filter(t2, t1) && t == Concat(t1, t2)
    ensures |c1| > |c2| ==> forall t :: t in HashJoin(c1, c2, f1, f2, filter) <==>
              exists t1, t2 | t1 in c1 && t2 in c2 :: t1.fields[f1] == t2.fields[f2] && filter(t1, t2) && t == Concat(t2, t1)
  {
    if |c1| > |c2| {
      ProbeMembers(c1, f1, c2, f2, filter);
    } else {
      ProbeMembers(c2, f2, c1, f1, filter);
    }
  }

  /** The kinds of field a tuple descriptor lists. */
  datatype FieldType = IntType | StringType

  function TypeOf(f: Field): FieldType {
    match f
    case IntField(_) => IntType
    case StringField(_) => StringType
  }

  /** `t` has the fields `desc` describes, in order. */
  predicate Conforms(t: Tuple, desc: seq<FieldType>) {
    |t.fields| == |desc| && forall i | 0 <= i < |desc| :: TypeOf(t.fields[i]) == desc[i]
  }

  /** Concatenating tuples concatenates what they conform to. */
  lemma ConcatConforms(a: Tuple, b: Tuple, da: seq<FieldType>, db: seq<FieldType>)
    requires Conforms(a, da) && Conforms(b, db)
    ensures Conforms(Concat(a, b), da + db)
  {
    var t := Concat(a, b);
    forall i | 0 <= i < |da + db|
      ensures TypeOf(t.fields[i]) == (da + db)[i]
    {
      if i < |da| {
        assert t.fields[i] == a.fields[i];
      } else {
        assert t.fields[i] == b.fields[i - |da|];
      }
    }
  }

  /**
   * With children that conform to their descriptors, every joined tuple
   * conforms to the first's descriptor followed by the second's, except on
   * the hash path with the first child larger, where the order is swapped.
   */
  lemma JoinConforms(c1: seq<Tuple>, c2: seq<Tuple>, f1: int, f2: int, filter: (Tuple, Tuple) -> bool,
                     d1: seq<FieldType>, d2: seq<FieldType>)
    requires HasField(c1, f1) && HasField(c2, f2)
    requires (forall t | t in c1 :: Conforms(t, d1)) && (forall t | t in c2 :: Conforms(t, d2))
    ensures forall t | t in NestedLoop(c1, c2, filter) :: Conforms(t, d1 + d2)
    ensures |c1| <= |c2| ==> forall t | t in HashJoin(c1, c2, f1, f2, filter) :: Conforms(t, d1 + d2)
    ensures |c1| > |c2| ==> forall t | t in HashJoin(c1, c2, f1, f2, filter) :: Conforms(t, d2 + d1)
  {
    NestedLoopMembers(c1, c2, filter);
    HashJoinMembers(c1, c2, f1, f2, filter);
    forall t1, t2 | t1 in c1 && t2 in c2
      ensures Conforms(Concat(t1, t2), d1 + d2) && Conforms(Concat(t2, t1), d2 + d1)
    {
      ConcatConforms(t1, t2, d1, d2);
      ConcatConforms(t2, t1, d2, d1);
    }
  }

  /** Counting a child's tuples by running its iterator to the end. */
  method CountTuples(c: seq<Tuple>) returns (n: int)
    ensures n == |c|
  {
    n := 0;
    while n < |c|
      invariant 0 <= n <= |c|
    {
      n := n + 1;
    }
  }

  /** Copying `first`'s fields and then `second`'s into a new tuple. */
  method MergeTuples(first: Tuple, second: Tuple) returns (t: Tuple)
    ensures t == Concat(first, second)
  {
    var fields: seq<Field> := [];
    for i := 0 to |first.fields|
      invariant fields == first.fields[..i]
    {
      fields := fields + [first.fields[i]];
    }
    for i := 0 to |second.fields|
      invariant fields == first.fields + second.fields[..i]
    {
      fields := fields + [second.fields[i]];
    }
    t := Tuple(fields, None);
  }

  /** The hash build loop: append each tuple to the bucket of its join field. */
  method BuildTable(build: seq<Tuple>, f: int) returns (table: map<Field, seq<Tuple>>)
    requires HasField(build, f)
    ensures table == Buckets(build, f)
  {
    table := map[];
    for i := 0 to |build|
      invariant HasField(build[..i], f)
      invariant table == Buckets(build[..i], f)
    {
      var t := build[i];
      var k := t.fields[f];
      if table == map[] || k !in table {
        table := table[k := []];
      }
      table := table[k := table[k] + [t]];
      assert build[..i + 1][..i] == build[..i];
    }
    assert build[..|build|] == build;
  }

  /** The probe loop: each probe tuple against the tuples of its bucket, if it has one. */
  method ProbeTable(probe: seq<Tuple>, f: int, table: map<Field, seq<Tuple>>, filter: (Tuple, Tuple) -> bool)
    returns (out: seq<Tuple>)
    requires HasField(probe, f)
    ensures out == Probe(probe, f, table, filter)
  {
    out := [];
    for i := 0 to |probe|
      invariant HasField(probe[..i], f)
      invariant out == Probe(probe[..i], f, table, filter)
    {
      var p := probe[i];
      var k := p.fields[f];
      assert probe[..i + 1][..i] == probe[..i];
      if k in table {
        var bucket := table[k];
        ghost var before := out;
        for j := 0 to |bucket|
          invariant out == before + BucketMatches(p, bucket[..j], filter)
        {
          var b := bucket[j];
          assert bucket[..j + 1][..j] == bucket[..j];
          if filter(p, b) {
            var merged := MergeTuples(b, p);
            out := out + [merged];
          }
        }
        assert bucket[..|bucket|] == bucket;
      }
    }
    assert probe[..|probe|] == probe;
  }

  /** The nested loops: for each outer tuple, every inner tuple the filter accepts. */
  method NestedLoopJoin(c1: seq<Tuple>, c2: seq<Tuple>, filter: (Tuple, Tuple) -> bool) returns (out: seq<Tuple>)
    ensures out == NestedLoop(c1, c2, filter)
  {
    out := [];
    for i := 0 to |c1|
      invariant out == NestedLoop(c1[..i], c2, filter)
    {
      var t1 := c1[i];
      assert c1[..i + 1][..i] == c1[..i];
      ghost var before := out;
      for j := 0 to |c2|
        invariant out == before + Matches(t1, c2[..j], filter)
      {
        var t2 := c2[j];
        assert c2[..j + 1][..j] == c2[..j];
        if filter(t1, t2) {
          var merged := MergeTuples(t1, t2);
          out := out + [merged];
        }
      }
      assert c2[..|c2|] == c2;
    }
    assert c1[..|c1|] == c1;
  }

  class Join {
    /** The tuples the two children yield, and their descriptors. */
    const child1: seq<Tuple>
    const child2: seq<Tuple>
    const desc1: seq<FieldType>
    const desc2: seq<FieldType>
    /** The predicate: its two field indices, whether its operator is `=`, and its test. */
    const field1: int
    const field2: int
    const isEquality: bool
    const filter: (Tuple, Tuple) -> bool
    var hashTable: map<Field, seq<Tuple>>
    /** 1 when the hash table is built on the first child, 2 when on the second. */
    var whichIsHash: int
    var outputBuffer: seq<Tuple>

    /** The equality path reads the join field of every tuple of both children. */
    ghost predicate Valid()
      reads this
    {
      isEquality ==> HasField(child1, field1) && HasField(child2, field2)
    }

    constructor(child1: seq<Tuple>, child2: seq<Tuple>, desc1: seq<FieldType>, desc2: seq<FieldType>,
                field1: int, field2: int, isEquality: bool, filter: (Tuple, Tuple) -> bool)
      requires isEquality ==> HasField(child1, field1) && HasField(child2, field2)
      ensures this.child1 == child1 && this.child2 == child2 && this.desc1 == desc1 && this.desc2 == desc2
      ensures this.field1 == field1 && this.field2 == field2 && this.isEquality == isEquality && this.filter == filter
      ensures hashTable == map[] && whichIsHash == 1 && outputBuffer == [] && Valid()
    {
      this.child1, this.child2, this.desc1, this.desc2 := child1, child2, desc1, desc2;
      this.field1, this.field2, this.isEquality, this.filter := field1, field2, isEquality, filter;
      hashTable, whichIsHash, outputBuffer := map[], 1, [];
    }

    /** `getTupleDesc`: the first child's descriptor followed by the second's. */
    function GetTupleDesc(): (d: seq<FieldType>)
      reads this
      ensures |d| == |desc1| + |desc2| && d[..|desc1|] == desc1 && d[|desc1|..] == desc2
    {
      desc1 + desc2
    }

    /**
     * `open`: count both children, pick the smaller as the build side (the
     * first on a tie), then run the hash join for `=` or the nested loop
     * otherwise, filling a fresh output buffer.
     */
    method Open()
      requires Valid()
      modifies this
      ensures Valid()
      ensures whichIsHash == if |child1| > |child2| then 2 else 1
      ensures isEquality ==> hashTable == (if whichIsHash == 1 then Buckets(child1, field1) else Buckets(child2, field2))
      ensures isEquality ==> outputBuffer == HashJoin(child1, child2, field1, field2, filter)
      ensures !isEquality ==> hashTable == map[] && outputBuffer == NestedLoop(child1, child2, filter)
    {
      var n1 := CountTuples(child1);
      var n2 := CountTuples(child2);
      hashTable := map[];
      outputBuffer := [];
      whichIsHash := if n1 > n2 then 2 else 1;
      if isEquality {
        var table, out;
        if whichIsHash == 1 {
          table := BuildTable(child1, field1);
          out := ProbeTable(child2, field2, table, filter);
        } else {
          table := BuildTable(child2, field2);
          out := ProbeTable(child1, field1, table, filter);
        }
        hashTable, outputBuffer := table, out;
      } else {
        outputBuffer := NestedLoopJoin(child1, child2, filter);
      }
    }

    /** `rewind`: close, then open again, recomputing the whole output. */
    method Rewind()
      requires Valid()
      modifies this
      ensures Valid()
      ensures whichIsHash == if |child1| > |child2| then 2 else 1
      ensures isEquality ==> hashTable == (if whichIsHash == 1 then Buckets(child1, field1) else Buckets(child2, field2))
      ensures isEquality ==> outputBuffer == HashJoin(child1, child2, field1, field2, filter)
      ensures !isEquality ==> hashTable == map[] && outputBuffer == NestedLoop(child1, child2, filter)
    {
      Open();
    }

    /** `fetchNext`: the oldest buffered tuple, or none once the buffer is empty. */
    method FetchNext() returns (r: Option<Tuple>)
      modifies this
      ensures old(outputBuffer) == [] ==> r == None && outputBuffer == []
      ensures old(outputBuffer) != [] ==> r == Some(old(outputBuffer)[0]) && outputBuffer == old(outputBuffer)[1..]
      ensures hashTable == old(hashTable) && whichIsHash == old(whichIsHash)
    {
      if outputBuffer == [] {
        return None;
      }
      r := Some(outputBuffer[0]);
      outputBuffer := outputBuffer[1..];
    }
  }
}
