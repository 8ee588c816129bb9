/**
 * Ordered filter-and-transform over a sequence, the shape of every
 * scraping loop here: visit elements in document order, emit zero or one
 * value for each.
 */
module Seqs {
  import opened Wrappers

  function OptionToSeq<U>(o: Option<U>): (r: seq<U>)
    ensures o.None? ==> r == []
    ensures o.Some? ==> r == [o.value]
  {
    if o.Some? then [o.value] else []
  }

  /** What `f` emits for each element of `xs`, in order. */
  function FilterMap<T, U>(xs: seq<T>, f: T -> Option<U>): (r: seq<U>)
    ensures |r| <= |xs|
  {
    if xs == [] then [] else FilterMap(xs[..|xs| - 1], f) + OptionToSeq(f(xs[|xs| - 1]))
  }

  lemma FilterMapSnoc<T, U>(xs: seq<T>, x: T, f: T -> Option<U>)
    ensures FilterMap(xs + [x], f) == FilterMap(xs, f) + OptionToSeq(f(x))
  {
    assert (xs + [x])[..|xs|] == xs;
  }

  /** One more element of a loop over `xs`: the output grows by that element's contribution. */
  lemma FilterMapStep<T, U>(xs: seq<T>, i: nat, f: T -> Option<U>)
    requires i < |xs|
    ensures FilterMap(xs[..i + 1], f) == FilterMap(xs[..i], f) + OptionToSeq(f(xs[i]))
  {
    assert xs[..i + 1] == xs[..i] + [xs[i]];
    FilterMapSnoc(xs[..i], xs[i], f);
  }

  /** The output for two runs of elements is the two outputs in order. */
  lemma {:induction false} FilterMapAppend<T, U>(a: seq<T>, b: seq<T>, f: T -> Option<U>)
    ensures FilterMap(a + b, f) == FilterMap(a, f) + FilterMap(b, f)
    decreases |b|
  {
    if b == [] {
      assert a + b == a;
    } else {
      var b' := b[..|b| - 1];
      assert (a + b)[..|a + b| - 1] == a + b';
      FilterMapAppend(a, b', f);
    }
  }

  /** A value is emitted exactly when some element yields it. */
  lemma {:induction false} FilterMapMembership<T, U>(xs: seq<T>, f: T -> Option<U>, y: U)
    ensures y in FilterMap(xs, f) <==> exists i :: 0 <= i < |xs| && f(xs[i]) == Some(y)
  {
    if xs != [] {
      var init, last := xs[..|xs| - 1], xs[|xs| - 1];
      FilterMapMembership(init, f, y);
      assert FilterMap(xs, f) == FilterMap(init, f) + OptionToSeq(f(last));
      assert y in OptionToSeq(f(last)) <==> f(last) == Some(y);
      if exists i :: 0 <= i < |init| && f(init[i]) == Some(y) {
        var i :| 0 <= i < |init| && f(init[i]) == Some(y);
        assert xs[i] == init[i];
      }
      if exists i :: 0 <= i < |xs| && f(xs[i]) == Some(y) {
        var i :| 0 <= i < |xs| && f(xs[i]) == Some(y);
        if i < |init| { assert init[i] == xs[i]; }
      }
    }
  }

  /** When every element yields a value, there is one output per element. */
  lemma {:induction false} FilterMapTotal<T, U>(xs: seq<T>, f: T -> Option<U>)
    requires forall i :: 0 <= i < |xs| ==> f(xs[i]).Some?
    ensures |FilterMap(xs, f)| == |xs|
    ensures forall i :: 0 <= i < |xs| ==> FilterMap(xs, f)[i] == f(xs[i]).value
  {
    if xs != [] {
      FilterMapTotal(xs[..|xs| - 1], f);
    }
  }

  /** An element that yields nothing can be dropped. */
  lemma FilterMapSkip<T, U>(a: seq<T>, x: T, b: seq<T>, f: T -> Option<U>)
    requires f(x).None?
    ensures FilterMap(a + [x] + b, f) == FilterMap(a + b, f)
  {
    FilterMapAppend(a + [x], b, f);
    FilterMapSnoc(a, x, f);
    FilterMapAppend(a, b, f);
  }

  /** The index of the last element satisfying `p`, as an overwrite-on-match loop finds it. */
  function LastWhere<T>(xs: seq<T>, p: T -> bool): (r: Option<nat>)
    ensures r.Some? ==> r.value < |xs|
  {
    if xs == [] then None
    else if p(xs[|xs| - 1]) then Some(|xs| - 1)
    else LastWhere(xs[..|xs| - 1], p)
  }

  lemma LastWhereSnoc<T>(xs: seq<T>, x: T, p: T -> bool)
    ensures LastWhere(xs + [x], p) == if p(x) then Some(|xs|) else LastWhere(xs, p)
  {
    assert (xs + [x])[..|xs|] == xs;
  }

  /** It is None exactly when no element satisfies `p`, and otherwise no later element does. */
  lemma {:induction false} LastWhereSpec<T>(xs: seq<T>, p: T -> bool)
    ensures LastWhere(xs, p).None? <==> forall i :: 0 <= i < |xs| ==> !p(xs[i])
    ensures LastWhere(xs, p).Some? ==> var k := LastWhere(xs, p).value;
      p(xs[k]) && forall j :: k < j < |xs| ==> !p(xs[j])
  {
    if xs != [] && !p(xs[|xs| - 1]) {
      var init := xs[..|xs| - 1];
      LastWhereSpec(init, p);
      assert forall i :: 0 <= i < |init| ==> init[i] == xs[i];
    }
  }
}
