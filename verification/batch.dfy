/**
 * Processing a batch item by item with a function that may reject an item:
 * the results of the accepted items are kept, in order, and rejected items
 * are dropped without affecting the others.
 */
module Batch {
  import opened Basics

  /** The results of `f` on the items of `xs` that it accepts, in the order of the items. */
  function Keep<T, U>(xs: seq<T>, f: T -> Option<U>): (r: seq<U>)
    ensures |r| <= |xs|
  {
    if xs == [] then [] else Keep(DropLast(xs), f) + OptionToSeq(f(Last(xs)))
  }

  /** Keeping over one more item appends that item's result, if it has one. */
  lemma KeepStep<T, U>(xs: seq<T>, i: nat, f: T -> Option<U>)
    requires i < |xs|
    ensures Keep(xs[..i + 1], f) == Keep(xs[..i], f) + OptionToSeq(f(xs[i]))
  {
    assert DropLast(xs[..i + 1]) == xs[..i];
  }

  /** A batch in two parts is processed part by part: no item affects another. */
  lemma {:induction false} KeepConcat<T, U>(a: seq<T>, b: seq<T>, f: T -> Option<U>)
    ensures Keep(a + b, f) == Keep(a, f) + Keep(b, f)
    decreases |b|
  {
    if b == [] {
      assert a + b == a;
    } else {
      assert DropLast(a + b) == a + DropLast(b);
      assert Last(a + b) == Last(b);
      KeepConcat(a, DropLast(b), f);
    }
  }

  /** A rejected item is dropped and the items around it are processed as usual. */
  lemma KeepSkip<T, U>(a: seq<T>, x: T, b: seq<T>, f: T -> Option<U>)
    requires f(x).None?
    ensures Keep(a + [x] + b, f) == Keep(a, f) + Keep(b, f)
  {
    KeepConcat(a + [x], b, f);
    KeepConcat(a, [x], f);
    assert DropLast([x]) == [];
    assert Keep([x], f) == [];
    assert Keep(a + [x], f) == Keep(a, f);
  }

  /** The positions of the accepted items, in increasing order. */
  function Kept<T, U>(xs: seq<T>, f: T -> Option<U>): seq<nat> {
    if xs == [] then []
    else
      var rest := Kept(DropLast(xs), f);
      if f(Last(xs)).Some? then rest + [|xs| - 1] else rest
  }

  /** The kept positions are accepted positions, strictly increasing, and miss no accepted one. */
  lemma {:induction false} KeptPositions<T, U>(xs: seq<T>, f: T -> Option<U>)
    ensures forall k :: 0 <= k < |Kept(xs, f)| ==> Kept(xs, f)[k] < |xs| && f(xs[Kept(xs, f)[k]]).Some?
    ensures forall k, l :: 0 <= k < l < |Kept(xs, f)| ==> Kept(xs, f)[k] < Kept(xs, f)[l]
    ensures forall j :: 0 <= j < |xs| && f(xs[j]).Some? ==> j in Kept(xs, f)
  {
    if xs != [] {
      var init := DropLast(xs);
      KeptPositions(init, f);
      assert forall j :: 0 <= j < |init| ==> init[j] == xs[j];
    }
  }

  /** The kept results are exactly the results at the accepted positions. */
  lemma {:induction false} KeepAtKept<T, U>(xs: seq<T>, f: T -> Option<U>)
    ensures |Keep(xs, f)| == |Kept(xs, f)|
    ensures forall k :: 0 <= k < |Kept(xs, f)| ==>
      Kept(xs, f)[k] < |xs| && f(xs[Kept(xs, f)[k]]).Some? && Keep(xs, f)[k] == f(xs[Kept(xs, f)[k]]).value
  {
    if xs != [] {
      var init := DropLast(xs);
      KeepAtKept(init, f);
      var done := Keep(init, f);
      var at := Kept(init, f);
      assert Keep(xs, f) == done + OptionToSeq(f(Last(xs)));
      assert Kept(xs, f) == if f(Last(xs)).Some? then at + [|xs| - 1] else at;
      forall k | 0 <= k < |Kept(xs, f)|
        ensures Kept(xs, f)[k] < |xs| && f(xs[Kept(xs, f)[k]]).Some? && Keep(xs, f)[k] == f(xs[Kept(xs, f)[k]]).value
      {
        if k < |at| {
          assert at[k] < |init| && init[at[k]] == xs[at[k]];
        }
      }
    }
  }

  /** When every item is accepted, each item's result is kept at the item's own position. */
  lemma {:induction false} KeepAll<T, U>(xs: seq<T>, f: T -> Option<U>)
    requires forall i :: 0 <= i < |xs| ==> f(xs[i]).Some?
    ensures |Keep(xs, f)| == |xs|
    ensures forall i :: 0 <= i < |xs| ==> Keep(xs, f)[i] == f(xs[i]).value
  {
    if xs != [] {
      var init := DropLast(xs);
      assert forall i :: 0 <= i < |init| ==> init[i] == xs[i];
      KeepAll(init, f);
      assert Keep(xs, f) == Keep(init, f) + [f(Last(xs)).value];
    }
  }
}
