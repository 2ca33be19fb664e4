/** Block ranges, bounds included. */
module BlockRanges {
  datatype Range = Range(fromBlock: int, toBlock: int)

  predicate Within(r: Range, h: int) { r.fromBlock <= h <= r.toBlock }

  ghost predicate Covered(rs: seq<Range>, h: int) { exists i :: 0 <= i < |rs| && Within(rs[i], h) }

  ghost predicate SameHeights(a: seq<Range>, b: seq<Range>) { forall h :: Covered(a, h) <==> Covered(b, h) }

  predicate NonEmpty(rs: seq<Range>) { forall i :: 0 <= i < |rs| ==> rs[i].fromBlock <= rs[i].toBlock }

  /** In order, none empty, and at least one height missing between neighbours. */
  ghost predicate Canonical(rs: seq<Range>) {
    NonEmpty(rs) && forall i, j :: 0 <= i < j < |rs| ==> rs[i].toBlock + 1 < rs[j].fromBlock
  }

  /** A set of heights has one canonical list. */
  lemma {:induction false} CanonicalIsUnique(a: seq<Range>, b: seq<Range>)
    requires Canonical(a) && Canonical(b) && SameHeights(a, b)
    ensures a == b
  {
    if a == [] || b == [] {
      if a != [] { assert Within(a[0], a[0].fromBlock); assert Covered(a, a[0].fromBlock); }
      if b != [] { assert Within(b[0], b[0].fromBlock); assert Covered(b, b[0].fromBlock); }
    } else {
      FirstWithinFirst(a, b);
      FirstWithinFirst(b, a);
      forall h
        ensures Covered(a[1..], h) <==> Covered(b[1..], h)
      {
        CoveredByRest(a, h);
        CoveredByRest(b, h);
      }
      CanonicalIsUnique(a[1..], b[1..]);
      assert a == [a[0]] + a[1..] && b == [b[0]] + b[1..];
    }
  }

  lemma FirstWithinFirst(a: seq<Range>, b: seq<Range>)
    requires a != [] && b != [] && Canonical(a) && Canonical(b) && SameHeights(a, b)
    ensures b[0].fromBlock <= a[0].fromBlock && a[0].toBlock <= b[0].toBlock
  {
    var from, after := a[0].fromBlock, b[0].toBlock + 1;
    assert Within(a[0], from) && Covered(a, from);
    assert Within(b[0], b[0].fromBlock) && Covered(b, b[0].fromBlock);
    assert !Covered(b, after);
    assert Within(a[0], after) ==> Covered(a, after);
  }

  lemma CoveredByRest(rs: seq<Range>, h: int)
    requires rs != [] && Canonical(rs)
    ensures Covered(rs[1..], h) <==> Covered(rs, h) && h > rs[0].toBlock
  {
    if i :| 0 <= i < |rs[1..]| && Within(rs[1..][i], h) {
      assert Within(rs[i + 1], h);
    }
    if Covered(rs, h) && h > rs[0].toBlock {
      var i :| 0 <= i < |rs| && Within(rs[i], h);
      assert Within(rs[1..][i - 1], h);
    }
  }

  lemma CoveredSnoc(rs: seq<Range>, r: Range)
    ensures forall h :: Covered(rs + [r], h) <==> Covered(rs, h) || Within(r, h)
  {
    forall h
      ensures Covered(rs + [r], h) <==> Covered(rs, h) || Within(r, h)
    {
      if i :| 0 <= i < |rs| && Within(rs[i], h) { assert Within((rs + [r])[i], h); }
      if Within(r, h) { assert Within((rs + [r])[|rs|], h); }
    }
  }
}
