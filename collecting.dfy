/**
  Both output loops of the wrapper walk the lines in order and append, for
  each line, at most one item to a list (`errors.append(line)`,
  `missing.append(filename)`, `extras.append(...)`). `Collect` is the list
  such a loop has built after seeing `xs`, given what each line contributes.
*/
module Collecting {
  import opened Wrappers

  function AsSeq<U>(o: Option<U>): (r: seq<U>)
    ensures |r| <= 1
  {
    match o
    case None => []
    case Some(u) => [u]
  }

  /** The items contributed by `xs`, in the order of the lines. */
  function Collect<T, U>(xs: seq<T>, f: T -> Option<U>): (r: seq<U>)
    ensures |r| <= |xs|
  {
    if xs == [] then [] else Collect(xs[..|xs| - 1], f) + AsSeq(f(xs[|xs| - 1]))
  }

  /** One more line appends its contribution, if any, and leaves the rest. */
  lemma CollectSnoc<T, U>(xs: seq<T>, x: T, f: T -> Option<U>)
    ensures Collect(xs + [x], f) == Collect(xs, f) + AsSeq(f(x))
  {
    assert (xs + [x])[..|xs|] == xs;
  }

  /** Collecting over a concatenation concatenates the results: items of
      earlier lines come before items of later lines. */
  lemma {:induction false} CollectAppend<T, U>(xs: seq<T>, ys: seq<T>, f: T -> Option<U>)
    ensures Collect(xs + ys, f) == Collect(xs, f) + Collect(ys, f)
    decreases |ys|
  {
    if ys == [] {
      assert xs + ys == xs;
    } else {
      var init, y := ys[..|ys| - 1], ys[|ys| - 1];
      assert ys == init + [y];
      calc {
        Collect(xs + ys, f);
        { assert xs + ys == (xs + init) + [y]; }
        Collect((xs + init) + [y], f);
        { CollectSnoc(xs + init, y, f); }
        Collect(xs + init, f) + AsSeq(f(y));
        { CollectAppend(xs, init, f); }
        (Collect(xs, f) + Collect(init, f)) + AsSeq(f(y));
        { CollectSnoc(init, y, f); }
        Collect(xs, f) + Collect(ys, f);
      }
    }
  }

  /** An item is collected exactly when some line contributes it. */
  lemma {:induction false} CollectMember<T, U>(xs: seq<T>, f: T -> Option<U>, u: U)
    ensures u in Collect(xs, f) <==> exists i :: 0 <= i < |xs| && f(xs[i]) == Some(u)
    decreases |xs|
  {
    if xs != [] {
      var init := xs[..|xs| - 1];
      CollectMember(init, f, u);
      if u in Collect(xs, f) {
        if u in Collect(init, f) {
          var i :| 0 <= i < |init| && f(init[i]) == Some(u);
          assert xs[i] == init[i];
        } else {
          assert f(xs[|xs| - 1]) == Some(u);
        }
      } else {
        forall i | 0 <= i < |xs|
          ensures f(xs[i]) != Some(u)
        {
          if i < |xs| - 1 {
            assert xs[i] == init[i];
          }
        }
      }
    }
  }

  /** The list only grows as the loop goes on: what was collected from a
      prefix of the lines is a prefix of what is collected from more. */
  lemma CollectPrefix<T, U>(xs: seq<T>, i: nat, j: nat, f: T -> Option<U>)
    requires i <= j <= |xs|
    ensures Collect(xs[..i], f) <= Collect(xs[..j], f)
    ensures |Collect(xs[..i], f)| <= |Collect(xs[..j], f)|
  {
    assert xs[..j] == xs[..i] + xs[i..j];
    CollectAppend(xs[..i], xs[i..j], f);
  }

  /** Lines that contribute nothing may be dropped from anywhere. */
  lemma CollectSkip<T, U>(xs: seq<T>, x: T, ys: seq<T>, f: T -> Option<U>)
    requires f(x) == None
    ensures Collect(xs + [x] + ys, f) == Collect(xs + ys, f)
  {
    CollectAppend(xs + [x], ys, f);
    CollectSnoc(xs, x, f);
    CollectAppend(xs, ys, f);
  }
}
