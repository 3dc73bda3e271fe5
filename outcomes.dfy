/** Generic folds over the outcomes of a scan: the records of the rows that
    were kept, and the first error of a scan that stops at an exception. */
module Outcomes {
  import opened Wrappers

  function AsSeq<T>(o: Option<T>): seq<T> {
    match o
    case Some(v) => [v]
    case None => []
  }

  /** The values of the present options, in order. */
  function Somes<T>(xs: seq<Option<T>>): seq<T>
    decreases |xs|
  {
    if xs == [] then [] else Somes(xs[..|xs| - 1]) + AsSeq(xs[|xs| - 1])
  }

  lemma SomesSnoc<T>(xs: seq<Option<T>>, x: Option<T>)
    ensures Somes(xs + [x]) == Somes(xs) + AsSeq(x)
  {
    assert (xs + [x])[..|xs|] == xs;
  }

  lemma TakeSnoc<T>(xs: seq<T>, k: nat)
    requires k < |xs|
    ensures xs[..k + 1] == xs[..k] + [xs[k]]
  {}

  lemma SeqExt<T>(a: seq<T>, b: seq<T>)
    requires |a| == |b| && forall i :: 0 <= i < |a| ==> a[i] == b[i]
    ensures a == b
  {}

  /** At most one value per option. */
  lemma {:induction false} SomesLength<T>(xs: seq<Option<T>>)
    ensures |Somes(xs)| <= |xs|
    decreases |xs|
  {
    if xs != [] {
      SomesLength(xs[..|xs| - 1]);
    }
  }

  /** Every value kept comes from a present option, and every present option
      is kept. */
  lemma {:induction false} SomesMembers<T>(xs: seq<Option<T>>)
    ensures forall v :: v in Somes(xs) <==> exists i :: 0 <= i < |xs| && xs[i] == Some(v)
    decreases |xs|
  {
    if xs != [] {
      var init := xs[..|xs| - 1];
      SomesMembers(init);
      forall v ensures v in Somes(xs) <==> exists i :: 0 <= i < |xs| && xs[i] == Some(v) {
        if v in Somes(xs) {
          if v in Somes(init) {
            var i :| 0 <= i < |init| && init[i] == Some(v);
            assert xs[i] == Some(v);
          } else {
            assert xs[|xs| - 1] == Some(v);
          }
        }
        if exists i :: 0 <= i < |xs| && xs[i] == Some(v) {
          var i :| 0 <= i < |xs| && xs[i] == Some(v);
          if i < |xs| - 1 {
            assert init[i] == Some(v);
          }
        }
      }
    }
  }

  /** The values of a sequence of outcomes when none of them is an error,
      the present ones in order; otherwise the first error, as a loop that
      raises on it would report. */
  function Gather<T, E>(xs: seq<Result<Option<T>, E>>): Result<seq<T>, E>
    decreases |xs|
  {
    if xs == [] then Ok([])
    else
      match Gather(xs[..|xs| - 1])
      case Err(e) => Err(e)
      case Ok(vs) =>
        match xs[|xs| - 1]
        case Err(e) => Err(e)
        case Ok(o) => Ok(vs + AsSeq(o))
  }

  lemma GatherSnoc<T, E>(xs: seq<Result<Option<T>, E>>, x: Result<Option<T>, E>)
    ensures Gather(xs + [x]) ==
      match Gather(xs)
      case Err(e) => Err(e)
      case Ok(vs) => (match x case Err(e) => Err(e) case Ok(o) => Ok(vs + AsSeq(o)))
  {
    assert (xs + [x])[..|xs|] == xs;
  }

  /** Gathering succeeds exactly when no outcome is an error. */
  lemma {:induction false} GatherOkIff<T, E>(xs: seq<Result<Option<T>, E>>)
    ensures Gather(xs).Ok? <==> forall i :: 0 <= i < |xs| ==> xs[i].Ok?
    decreases |xs|
  {
    if xs != [] {
      var init := xs[..|xs| - 1];
      GatherOkIff(init);
      assert forall i :: 0 <= i < |init| ==> init[i] == xs[i];
    }
  }

  /** The error reported is the error of some outcome. */
  lemma {:induction false} GatherErrFrom<T, E>(xs: seq<Result<Option<T>, E>>)
    requires Gather(xs).Err?
    ensures exists i :: 0 <= i < |xs| && xs[i] == Err(Gather(xs).error)
    decreases |xs|
  {
    var init := xs[..|xs| - 1];
    if Gather(init).Err? {
      GatherErrFrom(init);
      var i :| 0 <= i < |init| && init[i] == Err(Gather(init).error);
      assert xs[i] == init[i];
    } else {
      assert xs[|xs| - 1] == Err(Gather(xs).error);
    }
  }

  /** When gathering succeeds its values are the present ones. */
  lemma {:induction false} GatherSomes<T, E>(xs: seq<Result<Option<T>, E>>)
    requires forall i :: 0 <= i < |xs| ==> xs[i].Ok?
    ensures Gather(xs) == Ok(Somes(seq(|xs|, i requires 0 <= i < |xs| => xs[i].value)))
    decreases |xs|
  {
    if xs != [] {
      var init := xs[..|xs| - 1];
      GatherSomes(init);
      var os := seq(|xs|, i requires 0 <= i < |xs| => xs[i].value);
      assert os[..|os| - 1] == seq(|init|, i requires 0 <= i < |init| => init[i].value);
    }
  }

  /** The concatenation of a sequence of results when none is an error,
      otherwise the first error. */
  function Concat<T, E>(xs: seq<Result<seq<T>, E>>): Result<seq<T>, E>
    decreases |xs|
  {
    if xs == [] then Ok([])
    else
      match Concat(xs[..|xs| - 1])
      case Err(e) => Err(e)
      case Ok(vs) =>
        match xs[|xs| - 1]
        case Err(e) => Err(e)
        case Ok(ws) => Ok(vs + ws)
  }

  lemma ConcatSnoc<T, E>(xs: seq<Result<seq<T>, E>>, x: Result<seq<T>, E>)
    ensures Concat(xs + [x]) ==
      match Concat(xs)
      case Err(e) => Err(e)
      case Ok(vs) => (match x case Err(e) => Err(e) case Ok(ws) => Ok(vs + ws))
  {
    assert (xs + [x])[..|xs|] == xs;
  }

  /** Concatenation succeeds exactly when no part is an error. */
  lemma {:induction false} ConcatOkIff<T, E>(xs: seq<Result<seq<T>, E>>)
    ensures Concat(xs).Ok? <==> forall i :: 0 <= i < |xs| ==> xs[i].Ok?
    decreases |xs|
  {
    if xs != [] {
      var init := xs[..|xs| - 1];
      ConcatOkIff(init);
      assert forall i :: 0 <= i < |init| ==> init[i] == xs[i];
    }
  }

  /** Concatenating two sequences of successful parts concatenates the
      results. */
  lemma {:induction false} ConcatAppend<T, E>(xs: seq<Result<seq<T>, E>>, ys: seq<Result<seq<T>, E>>)
    requires Concat(xs).Ok? && Concat(ys).Ok?
    ensures Concat(xs + ys) == Ok(Concat(xs).value + Concat(ys).value)
    decreases |ys|
  {
    if ys == [] {
      assert xs + ys == xs;
      assert Concat(xs).value + Concat(ys).value == Concat(xs).value;
    } else {
      var init := ys[..|ys| - 1];
      assert (xs + ys)[..|xs + ys| - 1] == xs + init;
      ConcatOkIff(ys);
      ConcatOkIff(init);
      assert forall i :: 0 <= i < |init| ==> init[i] == ys[i];
      ConcatAppend(xs, init);
      assert (xs + ys)[|xs + ys| - 1] == ys[|ys| - 1];
      var a, b, c := Concat(xs).value, Concat(init).value, ys[|ys| - 1].value;
      assert Concat(ys).value == b + c;
      assert (a + b) + c == a + (b + c);
    }
  }

  /** The parts joined end to end, in order. */
  function Flatten<T>(parts: seq<seq<T>>): seq<T>
    decreases |parts|
  {
    if parts == [] then [] else Flatten(parts[..|parts| - 1]) + parts[|parts| - 1]
  }

  lemma FlattenSnoc<T>(parts: seq<seq<T>>, x: seq<T>)
    ensures Flatten(parts + [x]) == Flatten(parts) + x
  {
    assert (parts + [x])[..|parts|] == parts;
  }

  /** Joining two runs of parts joins their flattenings. */
  lemma {:induction false} FlattenAppend<T>(xs: seq<seq<T>>, ys: seq<seq<T>>)
    ensures Flatten(xs + ys) == Flatten(xs) + Flatten(ys)
    decreases |ys|
  {
    if ys == [] {
      assert xs + ys == xs;
    } else {
      var init, last := ys[..|ys| - 1], ys[|ys| - 1];
      assert xs + ys == (xs + init) + [last];
      assert ys == init + [last];
      FlattenSnoc(xs + init, last);
      FlattenSnoc(init, last);
      FlattenAppend(xs, init);
    }
  }

  /** The results of `f` on each item, one after another. */
  function ConcatMap<A, B>(xs: seq<A>, f: A -> seq<B>): seq<B>
    decreases |xs|
  {
    if xs == [] then [] else ConcatMap(xs[..|xs| - 1], f) + f(xs[|xs| - 1])
  }

  lemma ConcatMapSnoc<A, B>(xs: seq<A>, x: A, f: A -> seq<B>)
    ensures ConcatMap(xs + [x], f) == ConcatMap(xs, f) + f(x)
  {
    assert (xs + [x])[..|xs|] == xs;
  }

  /** Mapping two runs of items one after the other joins their results. */
  lemma {:induction false} ConcatMapAppend<A, B>(xs: seq<A>, ys: seq<A>, f: A -> seq<B>)
    ensures ConcatMap(xs + ys, f) == ConcatMap(xs, f) + ConcatMap(ys, f)
    decreases |ys|
  {
    if ys == [] {
      assert xs + ys == xs;
    } else {
      var init, last := ys[..|ys| - 1], ys[|ys| - 1];
      assert xs + ys == (xs + init) + [last];
      assert ys == init + [last];
      ConcatMapSnoc(xs + init, last, f);
      ConcatMapSnoc(init, last, f);
      ConcatMapAppend(xs, init, f);
    }
  }

  /** `f` applied to each item in turn; the first item it refuses stops the
      run with that error (`[f(x) for x in xs]` when `f` raises). */
  function MapAll<A, B, E>(xs: seq<A>, f: A -> Result<B, E>): Result<seq<B>, E> {
    if xs == [] then Ok([])
    else
      match f(xs[0])
      case Err(e) => Err(e)
      case Ok(v) =>
        match MapAll(xs[1..], f)
        case Err(e) => Err(e)
        case Ok(vs) => Ok([v] + vs)
  }

  /** The run succeeds exactly when every item is accepted, and then gives one
      value per item in order; otherwise its error is that of some item. */
  lemma {:induction false} MapAllSpec<A, B, E>(xs: seq<A>, f: A -> Result<B, E>)
    ensures MapAll(xs, f).Ok? <==> forall k :: 0 <= k < |xs| ==> f(xs[k]).Ok?
    ensures MapAll(xs, f).Ok? ==> |MapAll(xs, f).value| == |xs|
    ensures MapAll(xs, f).Ok? ==> forall k :: 0 <= k < |xs| ==> MapAll(xs, f).value[k] == f(xs[k]).value
    ensures MapAll(xs, f).Err? ==>
      exists k :: 0 <= k < |xs| && f(xs[k]) == Err(MapAll(xs, f).error) && forall j :: 0 <= j < k ==> f(xs[j]).Ok?
  {
    if xs != [] {
      var rest := xs[1..];
      MapAllSpec(rest, f);
      assert forall k :: 0 <= k < |rest| ==> rest[k] == xs[k + 1];
      var r := MapAll(xs, f);
      if f(xs[0]).Err? {
        assert r == Err(f(xs[0]).error);
      } else if MapAll(rest, f).Err? {
        assert r == MapAll(rest, f);
        var k :| 0 <= k < |rest| && f(rest[k]) == Err(r.error) && forall j :: 0 <= j < k ==> f(rest[j]).Ok?;
        assert f(xs[k + 1]) == Err(r.error);
        forall j | 0 <= j < k + 1 ensures f(xs[j]).Ok? {
          if j > 0 { assert xs[j] == rest[j - 1]; }
        }
      } else {
        var vs := MapAll(rest, f).value;
        assert r == Ok([f(xs[0]).value] + vs);
        forall k | 0 <= k < |xs| ensures f(xs[k]).Ok? && r.value[k] == f(xs[k]).value {
          if k > 0 { assert xs[k] == rest[k - 1]; }
        }
      }
    }
  }

  /** Items that each give a value give those values together. */
  lemma MapAllValues<A, B, E>(xs: seq<A>, f: A -> Result<B, E>, values: seq<B>)
    requires |xs| == |values|
    requires forall k :: 0 <= k < |xs| ==> f(xs[k]) == Ok(values[k])
    ensures MapAll(xs, f) == Ok(values)
  {
    MapAllSpec(xs, f);
    assert MapAll(xs, f).value == values;
  }
}
