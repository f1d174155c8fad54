/** Joining a list of pieces: plain concatenation, and concatenation
    that stops at the first piece that is an error. */
module Seqs {
  import opened Wrappers

  /** All pieces concatenated in order. */
  function Flatten<T>(xs: seq<seq<T>>): seq<T> {
    if |xs| == 0 then [] else xs[0] + Flatten(xs[1..])
  }

  /** Dropping the first element of a prefix is taking a prefix of the
      rest. */
  lemma PrefixTail<T>(s: seq<T>, j: nat)
    requires 1 <= j <= |s|
    ensures s[..j][1..] == s[1..][..j - 1] && s[..j][0] == s[0]
  {
  }

  /** `f` applied to every element. */
  function Map<A, B>(f: A -> B, xs: seq<A>): (r: seq<B>)
    ensures |r| == |xs| && forall k :: 0 <= k < |xs| ==> r[k] == f(xs[k])
  {
    seq(|xs|, k requires 0 <= k < |xs| => f(xs[k]))
  }

  /** Mapping distributes over concatenation. */
  lemma MapAppend<A, B>(f: A -> B, a: seq<A>, b: seq<A>)
    ensures Map(f, a + b) == Map(f, a) + Map(f, b)
  {
    assert forall k :: 0 <= k < |a| ==> (a + b)[k] == a[k];
    assert forall k :: |a| <= k < |a + b| ==> (a + b)[k] == b[k - |a|];
  }

  /** Flattening distributes over concatenation. */
  lemma {:induction false} FlattenAppend<T>(a: seq<seq<T>>, b: seq<seq<T>>)
    ensures Flatten(a + b) == Flatten(a) + Flatten(b)
  {
    if |a| == 0 {
      assert a + b == b;
    } else {
      assert (a + b)[0] == a[0] && (a + b)[1..] == a[1..] + b;
      FlattenAppend(a[1..], b);
    }
  }

  /** The pieces `f` gives for each element, concatenated in order. */
  function FlatMap<A, B>(f: A -> seq<B>, xs: seq<A>): seq<B> {
    if |xs| == 0 then [] else f(xs[0]) + FlatMap(f, xs[1..])
  }

  lemma FlatMapCons<A, B>(f: A -> seq<B>, x: A, xs: seq<A>)
    ensures FlatMap(f, [x] + xs) == f(x) + FlatMap(f, xs)
  {
    assert ([x] + xs)[1..] == xs;
  }

  /** Flat-mapping distributes over concatenation. */
  lemma {:induction false} FlatMapAppend<A, B>(f: A -> seq<B>, a: seq<A>, b: seq<A>)
    ensures FlatMap(f, a + b) == FlatMap(f, a) + FlatMap(f, b)
  {
    if |a| == 0 {
      assert a + b == b;
    } else {
      assert (a + b)[0] == a[0] && (a + b)[1..] == a[1..] + b;
      FlatMapAppend(f, a[1..], b);
    }
  }

  /** At most one piece per element gives at most one element per
      element. */
  lemma {:induction false} FlatMapShort<A, B>(f: A -> seq<B>, xs: seq<A>)
    requires forall x :: |f(x)| <= 1
    ensures |FlatMap(f, xs)| <= |xs|
  {
    if |xs| > 0 {
      FlatMapShort(f, xs[1..]);
    }
  }

  /** Elements that all give no piece give nothing. */
  lemma {:induction false} FlatMapEmpty<A, B>(f: A -> seq<B>, xs: seq<A>)
    requires forall i :: 0 <= i < |xs| ==> f(xs[i]) == []
    ensures FlatMap(f, xs) == []
  {
    if |xs| > 0 {
      assert forall i :: 0 <= i < |xs| - 1 ==> xs[1..][i] == xs[i + 1];
      FlatMapEmpty(f, xs[1..]);
    }
  }

  /** `f` applied to every element in order, stopping at the first error,
      which is the result. */
  function MapAll<A, B>(f: A -> Result<B>, xs: seq<A>): (r: Result<seq<B>>)
    ensures r.Ok? <==> forall i :: 0 <= i < |xs| ==> f(xs[i]).Ok?
    ensures r.Ok? ==> |r.value| == |xs| && forall i :: 0 <= i < |xs| ==> r.value[i] == f(xs[i]).value
    ensures r.Err? ==> exists i :: 0 <= i < |xs| && f(xs[i]) == Err(r.msg) && forall j :: 0 <= j < i ==> f(xs[j]).Ok?
  {
    if |xs| == 0 then Ok([])
    else
      assert forall i :: 1 <= i < |xs| ==> xs[1..][i - 1] == xs[i];
      var x :- f(xs[0]);
      var rest :- MapAll(f, xs[1..]);
      Ok([x] + rest)
  }

  /** The pieces in order, stopping at the first error. */
  function JoinAll<T>(rs: seq<Result<seq<T>>>): (r: Result<seq<T>>)
    ensures r.Ok? <==> forall i :: 0 <= i < |rs| ==> rs[i].Ok?
  {
    if |rs| == 0 then Ok([])
    else
      assert forall i :: 1 <= i < |rs| ==> rs[i] == rs[1..][i - 1];
      var x :- rs[0];
      var y :- JoinAll(rs[1..]);
      Ok(x + y)
  }

  /** Joining a concatenation: the first part's error comes first, then
      the second's; otherwise the joined parts are concatenated. */
  lemma {:induction false} JoinAllAppend<T>(a: seq<Result<seq<T>>>, b: seq<Result<seq<T>>>)
    ensures JoinAll(a + b) ==
              match JoinAll(a)
              case Err(m) => Err(m)
              case Ok(x) =>
                (match JoinAll(b)
                 case Err(m) => Err(m)
                 case Ok(y) => Ok(x + y))
  {
    if |a| == 0 {
      assert a + b == b;
      if JoinAll(b).Ok? {
        assert [] + JoinAll(b).value == JoinAll(b).value;
      }
    } else {
      assert (a + b)[0] == a[0] && (a + b)[1..] == a[1..] + b;
      JoinAllAppend(a[1..], b);
      if a[0].Ok? && JoinAll(a[1..]).Ok? && JoinAll(b).Ok? {
        var x := JoinAll(a[1..]).value;
        var y := JoinAll(b).value;
        assert a[0].value + (x + y) == (a[0].value + x) + y;
      }
    }
  }

  /** Pieces of one length `u` flatten to `u` elements per piece. */
  lemma {:induction false} FlattenUniformLength<T>(xs: seq<seq<T>>, u: nat)
    requires forall j :: 0 <= j < |xs| ==> |xs[j]| == u
    ensures |Flatten(xs)| == u * |xs|
  {
    if |xs| > 0 {
      FlattenUniformLength(xs[1..], u);
    }
  }

  /** Piece `k` of pieces of one length `u` sits at `k * u`. */
  lemma {:induction false} FlattenUniformAt<T>(xs: seq<seq<T>>, u: nat, k: nat)
    requires forall j :: 0 <= j < |xs| ==> |xs[j]| == u
    requires k < |xs|
    ensures k * u + u <= |Flatten(xs)|
    ensures Flatten(xs)[k * u..k * u + u] == xs[k]
  {
    FlattenUniformLength(xs, u);
    FlattenUniformLength(xs[1..], u);
    var rest := Flatten(xs[1..]);
    assert Flatten(xs) == xs[0] + rest;
    if k == 0 {
      assert (xs[0] + rest)[..u] == xs[0];
    } else {
      FlattenUniformAt(xs[1..], u, k - 1);
      assert k * u == u + (k - 1) * u;
      assert (xs[0] + rest)[u + (k - 1) * u..u + (k - 1) * u + u] == rest[(k - 1) * u..(k - 1) * u + u];
    }
  }
}
