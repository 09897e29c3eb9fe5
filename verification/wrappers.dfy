/** Failure-aware result types and list helpers shared by every module of the model. */
module Wrappers {

  /** A value that may be absent (Python's `None`). */
  datatype Option<T> = None | Some(value: T)

  /** A computation that either yields a value or raises the given error. */
  datatype Result<T, E> = Success(value: T) | Failure(error: E)

  /** `[f(x) for x in s]` */
  function Map<A, B>(f: A -> B, s: seq<A>): (r: seq<B>)
    ensures |r| == |s|
    ensures forall i :: 0 <= i < |s| ==> r[i] == f(s[i])
  {
    seq(|s|, i requires 0 <= i < |s| => f(s[i]))
  }

  lemma MapAppend<A, B>(f: A -> B, a: seq<A>, b: seq<A>)
    ensures Map(f, a + b) == Map(f, a) + Map(f, b)
  {
    var l, r := Map(f, a + b), Map(f, a) + Map(f, b);
    forall i | 0 <= i < |l| ensures l[i] == r[i] {
      if i < |a| {
        assert (a + b)[i] == a[i];
      } else {
        assert (a + b)[i] == b[i - |a|];
      }
    }
  }

  /** The present values, in order. */
  function Somes<T>(s: seq<Option<T>>): (r: seq<T>)
    ensures |r| <= |s|
  {
    if s == [] then []
    else
      var last := s[|s| - 1];
      Somes(s[..|s| - 1]) + (if last.Some? then [last.value] else [])
  }

  lemma SomesStep<T>(s: seq<Option<T>>, i: nat)
    requires i < |s|
    ensures s[i].None? ==> Somes(s[..i + 1]) == Somes(s[..i])
    ensures s[i].Some? ==> Somes(s[..i + 1]) == Somes(s[..i]) + [s[i].value]
  {
    assert s[..i + 1][..i] == s[..i];
    if s[i].None? {
      assert Somes(s[..i + 1]) == Somes(s[..i]) + [];
    }
  }

  lemma {:induction false} SomesAppend<T>(a: seq<Option<T>>, b: seq<Option<T>>)
    ensures Somes(a + b) == Somes(a) + Somes(b)
    decreases |b|
  {
    if b == [] {
      assert a + b == a;
    } else {
      var b' := b[..|b| - 1];
      SomesAppend(a, b');
      assert (a + b)[..|a + b| - 1] == a + b';
    }
  }

  /** An element that maps to `None` contributes nothing. */
  lemma SomesMapSkip<A, T>(f: A -> Option<T>, before: seq<A>, x: A, after: seq<A>)
    requires f(x) == None
    ensures Somes(Map(f, before + [x] + after)) == Somes(Map(f, before + after))
  {
    MapAppend(f, before + [x], after);
    MapAppend(f, before, [x]);
    MapAppend(f, before, after);
    var b, a := Map(f, before), Map(f, after);
    assert Map(f, [x]) == [None];
    SomesAppend(b + [None], a);
    SomesAppend(b, [None]);
    SomesAppend(b, a);
    assert Somes([None]) == Somes<T>([]) + [];
  }

  /** The last present value, or `d` when there is none. */
  function LastOr<T>(s: seq<Option<T>>, d: T): T {
    if s == [] then d
    else if s[|s| - 1].Some? then s[|s| - 1].value
    else LastOr(s[..|s| - 1], d)
  }

  lemma LastOrStep<T>(s: seq<Option<T>>, d: T, i: nat)
    requires i < |s|
    ensures s[i].None? ==> LastOr(s[..i + 1], d) == LastOr(s[..i], d)
    ensures s[i].Some? ==> LastOr(s[..i + 1], d) == s[i].value
  {
    assert s[..i + 1][..i] == s[..i];
  }

  /** The default when nothing is present; otherwise the value of the last
      present element, whatever came before it. */
  lemma LastOrMeaning<T>(s: seq<Option<T>>, d: T)
    ensures (forall i :: 0 <= i < |s| ==> s[i].None?) ==> LastOr(s, d) == d
    ensures forall i :: 0 <= i < |s| && s[i].Some? && (forall j :: i < j < |s| ==> s[j].None?)
                   ==> LastOr(s, d) == s[i].value
  {
    if forall i :: 0 <= i < |s| ==> s[i].None? {
      LastOrNone(s, d);
    }
    forall i | 0 <= i < |s| && s[i].Some? && (forall j :: i < j < |s| ==> s[j].None?)
      ensures LastOr(s, d) == s[i].value
    {
      LastOrAt(s, d, i);
    }
  }

  lemma {:induction false} LastOrNone<T>(s: seq<Option<T>>, d: T)
    requires forall i :: 0 <= i < |s| ==> s[i].None?
    ensures LastOr(s, d) == d
  {
    if s != [] {
      var init := s[..|s| - 1];
      assert forall i :: 0 <= i < |init| ==> init[i] == s[i];
      LastOrNone(init, d);
    }
  }

  lemma {:induction false} LastOrAt<T>(s: seq<Option<T>>, d: T, i: nat)
    requires i < |s| && s[i].Some?
    requires forall j :: i < j < |s| ==> s[j].None?
    ensures LastOr(s, d) == s[i].value
  {
    if i < |s| - 1 {
      var init := s[..|s| - 1];
      assert init[i] == s[i];
      assert forall j :: i < j < |init| ==> init[j] == s[j];
      LastOrAt(init, d, i);
    }
  }

  /** Applies `f` to each element in turn from `init`; the first failure
      stops the loop and is the result. */
  function Fold<S, A, E>(f: (S, A) -> Result<S, E>, init: S, s: seq<A>): Result<S, E> {
    if s == [] then Success(init)
    else
      match Fold(f, init, s[..|s| - 1])
      case Failure(e) => Failure(e)
      case Success(acc) => f(acc, s[|s| - 1])
  }

  lemma FoldStep<S, A, E>(f: (S, A) -> Result<S, E>, init: S, s: seq<A>, i: nat)
    requires i < |s|
    ensures Fold(f, init, s[..i]).Failure? ==> Fold(f, init, s[..i + 1]) == Fold(f, init, s[..i])
    ensures Fold(f, init, s[..i]).Success? ==>
      Fold(f, init, s[..i + 1]) == f(Fold(f, init, s[..i]).value, s[i])
  {
    assert s[..i + 1][..i] == s[..i];
  }

  lemma FoldSnoc<S, A, E>(f: (S, A) -> Result<S, E>, init: S, s: seq<A>, x: A)
    ensures Fold(f, init, s).Failure? ==> Fold(f, init, s + [x]) == Fold(f, init, s)
    ensures Fold(f, init, s).Success? ==> Fold(f, init, s + [x]) == f(Fold(f, init, s).value, x)
  {
    assert (s + [x])[..|s|] == s;
  }

  /** Once a step fails, nothing after it is looked at. */
  lemma {:induction false} FoldFailure<S, A, E>(f: (S, A) -> Result<S, E>, init: S, a: seq<A>, b: seq<A>)
    requires Fold(f, init, a).Failure?
    ensures Fold(f, init, a + b) == Fold(f, init, a)
    decreases |b|
  {
    if b == [] {
      assert a + b == a;
    } else {
      var b' := b[..|b| - 1];
      FoldFailure(f, init, a, b');
      assert (a + b)[..|a + b| - 1] == a + b';
    }
  }

  lemma FoldFailurePrefix<S, A, E>(f: (S, A) -> Result<S, E>, init: S, s: seq<A>, i: nat)
    requires i <= |s|
    requires Fold(f, init, s[..i]).Failure?
    ensures Fold(f, init, s) == Fold(f, init, s[..i])
  {
    FoldFailure(f, init, s[..i], s[i..]);
    assert s[..i] + s[i..] == s;
  }

  /** The index of the first element that satisfies `p`, if any. */
  function FirstIndex<T>(p: T -> bool, s: seq<T>): (r: Option<nat>)
    ensures r.Some? ==> r.value < |s| && p(s[r.value])
    ensures r.Some? ==> forall j :: 0 <= j < r.value ==> !p(s[j])
    ensures r.None? <==> forall j :: 0 <= j < |s| ==> !p(s[j])
  {
    if s == [] then None
    else if p(s[0]) then Some(0)
    else match FirstIndex(p, s[1..])
      case None => None
      case Some(j) => Some(j + 1)
  }

  lemma FirstIndexIs<T>(p: T -> bool, s: seq<T>, i: nat)
    requires i < |s| && p(s[i])
    requires forall j :: 0 <= j < i ==> !p(s[j])
    ensures FirstIndex(p, s) == Some(i)
  {
  }

  /** `[x for x in s if p(x)]` */
  function Filter<T>(p: T -> bool, s: seq<T>): (r: seq<T>)
    ensures |r| <= |s|
    ensures forall k :: 0 <= k < |s| && p(s[k]) ==> s[k] in r
    ensures forall k :: 0 <= k < |r| ==> r[k] in s
    ensures forall k :: 0 <= k < |r| ==> p(r[k])
  {
    if s == [] then []
    else Filter(p, s[..|s| - 1]) + (if p(s[|s| - 1]) then [s[|s| - 1]] else [])
  }

  lemma FilterStep<T>(p: T -> bool, s: seq<T>, i: nat)
    requires i < |s|
    ensures p(s[i]) ==> Filter(p, s[..i + 1]) == Filter(p, s[..i]) + [s[i]]
    ensures !p(s[i]) ==> Filter(p, s[..i + 1]) == Filter(p, s[..i])
  {
    assert s[..i + 1][..i] == s[..i];
  }

  /** A value is present in the result exactly when it is present in `s`. */
  lemma {:induction false} SomesMember<T>(s: seq<Option<T>>, x: T)
    ensures x in Somes(s) <==> Some(x) in s
    decreases |s|
  {
    if s != [] {
      var init := s[..|s| - 1];
      SomesMember(init, x);
      assert s == init + [s[|s| - 1]];
    }
  }
}
