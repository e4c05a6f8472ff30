/**
 The edge-erasing loop shared by node removal and age pruning:

   for (i = 0; i < edges.size(); i++)
     if (edge i matches) erase edge i;

 After an erase the next edge shifts into slot `i` and `i++` steps past it, so
 that edge is kept without being examined. `SkipFilter` is the exact meaning of
 this loop, `Filter` the stable "remove every match" pass it is documented as,
 and the lemmas relate the two.
 */
module EraseLoop {
  import opened SomGraph

  /** Which edges a pass erases. */
  datatype Criterion =
    | IncidentTo(node: nat)   // the node-removal pass
    | OlderThan(maxAge: real) // the age-pruning pass: `age > max_age`

  predicate Erases(c: Criterion, e: Edge) {
    match c
    case IncidentTo(n) => Touches(e, n)
    case OlderThan(m) => e.age > m
  }

  /** Every edge `c` does not erase, in order. */
  function Filter(es: seq<Edge>, c: Criterion): (r: seq<Edge>)
    ensures forall e :: e in r <==> e in es && !Erases(c, e)
    ensures |r| <= |es|
  {
    if |es| == 0 then []
    else (if Erases(c, es[0]) then [] else [es[0]]) + Filter(es[1..], c)
  }

  /** What the erase-then-`i++` loop leaves: a matching edge is erased and the
      edge right after it is kept unexamined. */
  function SkipFilter(es: seq<Edge>, c: Criterion): (r: seq<Edge>)
    ensures |r| <= |es|
    ensures forall e :: e in r ==> e in es
    decreases |es|
  {
    if |es| == 0 then []
    else if !Erases(c, es[0]) then [es[0]] + SkipFilter(es[1..], c)
    else if |es| == 1 then []
    else [es[1]] + SkipFilter(es[2..], c)
  }

  /** `a` is `b` with some elements left out, the rest in their original order. */
  ghost predicate Subseq<T>(a: seq<T>, b: seq<T>)
    decreases |b|
  {
    if |a| == 0 then true
    else if |b| == 0 then false
    else (a[0] == b[0] && Subseq(a[1..], b[1..])) || Subseq(a, b[1..])
  }

  /** No two consecutive edges are both erased by `c`. */
  ghost predicate NoAdjacent(es: seq<Edge>, c: Criterion) {
    forall i :: 0 <= i < |es| - 1 ==> !(Erases(c, es[i]) && Erases(c, es[i + 1]))
  }

  lemma {:induction false} SubseqRefl<T>(a: seq<T>)
    ensures Subseq(a, a)
    decreases |a|
  {
    if |a| > 0 {
      SubseqRefl(a[1..]);
    }
  }

  lemma {:induction false} SubseqMembers<T>(a: seq<T>, b: seq<T>)
    requires Subseq(a, b)
    ensures forall x :: x in a ==> x in b
    decreases |b|
  {
    if |a| > 0 {
      if a[0] == b[0] && Subseq(a[1..], b[1..]) {
        SubseqMembers(a[1..], b[1..]);
        assert forall x :: x in a ==> x == a[0] || x in a[1..];
      } else {
        SubseqMembers(a, b[1..]);
      }
    }
  }

  lemma {:induction false} FilterIsSubseq(es: seq<Edge>, c: Criterion)
    ensures Subseq(Filter(es, c), es)
    decreases |es|
  {
    if |es| > 0 {
      FilterIsSubseq(es[1..], c);
      var r := Filter(es, c);
      if !Erases(c, es[0]) {
        assert r[0] == es[0] && r[1..] == Filter(es[1..], c);
      } else if |r| > 0 {
        assert r == Filter(es[1..], c);
      }
    }
  }

  lemma {:induction false} SkipFilterIsSubseq(es: seq<Edge>, c: Criterion)
    ensures Subseq(SkipFilter(es, c), es)
    decreases |es|
  {
    var r := SkipFilter(es, c);
    if |es| == 0 {
    } else if !Erases(c, es[0]) {
      SkipFilterIsSubseq(es[1..], c);
      assert r[1..] == SkipFilter(es[1..], c);
    } else if |es| == 1 {
    } else {
      SkipFilterIsSubseq(es[2..], c);
      assert r[1..] == SkipFilter(es[2..], c);
      assert es[1..][1..] == es[2..];
      assert es[1..][0] == es[1];
      assert Subseq(r, es[1..]);
    }
  }

  /** The edges the loop keeps that `c` would not erase are exactly those of the input. */
  lemma {:induction false} SkipFilterKeepsSurvivors(es: seq<Edge>, c: Criterion)
    ensures Filter(SkipFilter(es, c), c) == Filter(es, c)
    decreases |es|
  {
    var r := SkipFilter(es, c);
    if |es| == 0 {
    } else if !Erases(c, es[0]) {
      SkipFilterKeepsSurvivors(es[1..], c);
      assert r[1..] == SkipFilter(es[1..], c);
    } else if |es| == 1 {
    } else {
      SkipFilterKeepsSurvivors(es[2..], c);
      assert r[1..] == SkipFilter(es[2..], c);
      assert es[1..][1..] == es[2..];
      assert Filter(es, c) == Filter(es[1..], c);
    }
  }

  /** Without two consecutive matches, nothing is skipped and the loop removes every match. */
  lemma {:induction false} SkipFilterNoAdjacent(es: seq<Edge>, c: Criterion)
    requires NoAdjacent(es, c)
    ensures SkipFilter(es, c) == Filter(es, c)
    decreases |es|
  {
    if |es| == 0 {
    } else if !Erases(c, es[0]) {
      assert NoAdjacent(es[1..], c) by {
        forall i | 0 <= i < |es[1..]| - 1
          ensures !(Erases(c, es[1..][i]) && Erases(c, es[1..][i + 1]))
        {
          assert es[1..][i] == es[i + 1] && es[1..][i + 1] == es[i + 2];
        }
      }
      SkipFilterNoAdjacent(es[1..], c);
    } else if |es| == 1 {
    } else {
      assert !Erases(c, es[1]);
      assert NoAdjacent(es[2..], c) by {
        forall i | 0 <= i < |es[2..]| - 1
          ensures !(Erases(c, es[2..][i]) && Erases(c, es[2..][i + 1]))
        {
          assert es[2..][i] == es[i + 2] && es[2..][i + 1] == es[i + 3];
        }
      }
      SkipFilterNoAdjacent(es[2..], c);
      assert es[1..][1..] == es[2..];
      assert Filter(es, c) == Filter(es[1..], c);
    }
  }

  /** When `c` erases nothing, the loop leaves the vector as it was. */
  lemma {:induction false} SkipFilterNoMatch(es: seq<Edge>, c: Criterion)
    requires forall k :: 0 <= k < |es| ==> !Erases(c, es[k])
    ensures SkipFilter(es, c) == es
    decreases |es|
  {
    if |es| > 0 {
      assert forall k :: 0 <= k < |es[1..]| ==> es[1..][k] == es[k + 1];
      SkipFilterNoMatch(es[1..], c);
    }
  }

  /** One erasing iteration: slot `i` now holds the next edge, which `i++` then keeps. */
  lemma EraseStep(r: seq<Edge>, i: nat, c: Criterion)
    requires i < |r| && Erases(c, r[i])
    ensures var r' := r[..i] + r[i + 1..];
      && (i + 1 <= |r'| ==> r'[..i + 1] + SkipFilter(r'[i + 1..], c) == r[..i] + SkipFilter(r[i..], c))
      && (i + 1 > |r'| ==> r' == r[..i] + SkipFilter(r[i..], c))
  {
    var r' := r[..i] + r[i + 1..];
    if i + 1 < |r| {
      assert r[i..][1..][1..] == r[i + 2..];
      assert r'[..i + 1] == r[..i] + [r[i + 1]];
      assert r'[i + 1..] == r[i + 2..];
    } else {
      assert r' == r[..i];
    }
  }

  /** One iteration that erases nothing. */
  lemma KeepStep(r: seq<Edge>, i: nat, c: Criterion)
    requires i < |r| && !Erases(c, r[i])
    ensures r[..i + 1] + SkipFilter(r[i + 1..], c) == r[..i] + SkipFilter(r[i..], c)
  {
    assert r[i..][1..] == r[i + 1..];
    assert r[..i + 1] == r[..i] + [r[i]];
  }

  /** The loop itself, with the source's index behaviour. */
  method EraseSkipping(es: seq<Edge>, c: Criterion) returns (r: seq<Edge>)
    ensures r == SkipFilter(es, c)
    ensures Subseq(r, es)
    ensures Filter(r, c) == Filter(es, c)
    ensures forall e :: e in es && !Erases(c, e) ==> e in r
    ensures NoAdjacent(es, c) ==> r == Filter(es, c)
  {
    r := es;
    var i: nat := 0;
    while i < |r|
      invariant i <= |r| + 1
      invariant i <= |r| ==> r[..i] + SkipFilter(r[i..], c) == SkipFilter(es, c)
      invariant i == |r| + 1 ==> r == SkipFilter(es, c)
      decreases |r| + 1 - i
    {
      if Erases(c, r[i]) {
        EraseStep(r, i, c);
        r := r[..i] + r[i + 1..];
      } else {
        KeepStep(r, i, c);
      }
      i := i + 1;
    }
    if i == |r| {
      assert r[..i] == r && r[i..] == [];
    }
    SkipFilterIsSubseq(es, c);
    SkipFilterKeepsSurvivors(es, c);
    if NoAdjacent(es, c) {
      SkipFilterNoAdjacent(es, c);
    }
  }
}
