/** `Model`: one Markov submodel per neighbourhood order, all fed the same
    image in index order. A submodel slot is `None` where the array element
    is `null`. */
module Models {
  import opened Wrappers
  import opened Exceptions
  import opened Grids
  import opened Neighborhoods
  import opened MarkovModels

  datatype Model = Model(submodels: seq<Option<MarkovModel>>)

  predicate IsInt32(x: int) {
    -TwoTo31 <= x < TwoTo31
  }

  /** `new MarkovModel[maxN + 1]`: the length is computed in unchecked
      32-bit arithmetic, and a negative length throws `OverflowException`.
      That happens for `maxN < -1` and, by wrap-around, for
      `maxN == int.MaxValue`. */
  function ArrayLength(maxN: int): (r: Result<nat, Exception>)
    requires IsInt32(maxN)
    ensures r.Failure? <==> maxN < -1 || maxN == TwoTo31 - 1
    ensures r.Failure? ==> r.error == OverflowException
    ensures r.Success? ==> r.value == maxN + 1
  {
    var size := Wrap32(maxN + 1);
    assert maxN + 1 < TwoTo31 ==> size == maxN + 1 by {
      if maxN + 1 < TwoTo31 {
        assert 0 <= maxN + 1 + TwoTo31 < TwoTo32;
      }
    }
    assert maxN + 1 == TwoTo31 ==> size == -TwoTo31 by {
      if maxN + 1 == TwoTo31 {
        assert maxN + 1 + TwoTo31 == TwoTo32;
      }
    }
    if size < 0 then Failure(OverflowException) else Success(size)
  }

  /** The constructor as written: the loop fills the slots below `maxN`,
      so the last slot stays `null`. */
  function New(maxN: int, nb: Neighborhood): (r: Result<Model, Exception>)
    requires IsInt32(maxN)
    ensures r.Failure? <==> maxN < -1 || maxN == TwoTo31 - 1
    ensures r.Failure? ==> r.error == OverflowException
    ensures r.Success? ==> |r.value.submodels| == maxN + 1
    ensures r.Success? ==> forall i :: 0 <= i < maxN ==> r.value.submodels[i] == Some(NewMarkovModel(i, nb))
    ensures r.Success? && maxN >= 0 ==> r.value.submodels[maxN] == None
  {
    var size :- ArrayLength(maxN);
    Success(Model(seq(size, i requires 0 <= i < size => if i < maxN then Some(NewMarkovModel(i, nb)) else None)))
  }

  /** The constructor as evidently intended: every one of the `maxN + 1`
      slots, orders `0` to `maxN`, holds a submodel. */
  function NewIntended(maxN: int, nb: Neighborhood): (r: Result<Model, Exception>)
    requires IsInt32(maxN)
    ensures r.Failure? <==> maxN < -1 || maxN == TwoTo31 - 1
    ensures r.Failure? ==> r.error == OverflowException
    ensures r.Success? ==> |r.value.submodels| == maxN + 1
    ensures r.Success? ==> forall i :: 0 <= i <= maxN ==> r.value.submodels[i] == Some(NewMarkovModel(i, nb))
  {
    var size :- ArrayLength(maxN);
    Success(Model(seq(size, i requires 0 <= i < size => Some(NewMarkovModel(i, nb)))))
  }

  /** The state after `LoadImage` returns or throws: the submodels (those
      loaded before an exception keep their new counts) and the exception,
      if any. */
  datatype Outcome = Outcome(model: Model, error: Option<Exception>)

  /** The `foreach` loop of `LoadImage` from slot `i` on. A `null` slot
      throws `NullReferenceException`; an exception from a submodel's
      `LoadFromImage` escapes; either stops the loop. */
  function LoadFrom(m: Model, img: Image, i: nat): (r: Outcome)
    requires WellFormed(img)
    requires i <= |m.submodels|
    ensures |r.model.submodels| == |m.submodels|
    ensures forall j :: 0 <= j < i ==> r.model.submodels[j] == m.submodels[j]
    ensures r.error.None? ==> forall j :: i <= j < |m.submodels| ==> r.model.submodels[j].Some?
    decreases |m.submodels| - i
  {
    var s := m.submodels;
    if i == |s| then Outcome(m, None)
    else
      match s[i]
      case None => Outcome(m, Some(NullReferenceException))
      case Some(mm) =>
        match LoadFromImage(mm, img)
        case Failure(e) => Outcome(m, Some(e))
        case Success(mm') => LoadFrom(Model(s[i := Some(mm')]), img, i + 1)
  }

  /** `LoadImage`: every slot in index order. */
  function LoadImage(m: Model, img: Image): (r: Outcome)
    requires WellFormed(img)
    ensures |r.model.submodels| == |m.submodels|
    ensures r.error.None? ==> forall j :: 0 <= j < |m.submodels| ==> r.model.submodels[j].Some?
  {
    LoadFrom(m, img, 0)
  }

  /** Slots `i` to `k - 1` hold submodels that load without an exception. */
  predicate LoadsCleanly(s: seq<Option<MarkovModel>>, img: Image, i: nat, k: nat)
    requires WellFormed(img)
    requires i <= k <= |s|
  {
    forall j :: i <= j < k ==> s[j].Some? && LoadFromImage(s[j].value, img).Success?
  }

  /** The slots after loading slots `i` to `k - 1`. */
  function Loaded(s: seq<Option<MarkovModel>>, img: Image, i: nat, k: nat): (r: seq<Option<MarkovModel>>)
    requires WellFormed(img)
    requires i <= k <= |s|
    requires LoadsCleanly(s, img, i, k)
    ensures |r| == |s|
  {
    seq(|s|, j requires 0 <= j < |s| => if i <= j < k then Some(LoadFromImage(s[j].value, img).value) else s[j])
  }

  /** Loading slots `i` to `k - 1` cleanly, in order, leaves the loop at
      slot `k` with those slots loaded and no other slot touched. */
  lemma {:induction false} LoadFromUpTo(m: Model, img: Image, i: nat, k: nat)
    requires WellFormed(img)
    requires i <= k <= |m.submodels|
    requires LoadsCleanly(m.submodels, img, i, k)
    ensures LoadFrom(m, img, i) == LoadFrom(Model(Loaded(m.submodels, img, i, k)), img, k)
    decreases k - i
  {
    var s := m.submodels;
    if i == k {
      assert Loaded(s, img, i, k) == s;
    } else {
      var mm' := LoadFromImage(s[i].value, img).value;
      var s' := s[i := Some(mm')];
      assert LoadFrom(m, img, i) == LoadFrom(Model(s'), img, i + 1);
      assert LoadsCleanly(s', img, i + 1, k) by {
        forall j | i + 1 <= j < k
          ensures s'[j].Some? && LoadFromImage(s'[j].value, img).Success?
        {
          assert s'[j] == s[j];
        }
      }
      LoadFromUpTo(Model(s'), img, i + 1, k);
      assert Loaded(s', img, i + 1, k) == Loaded(s, img, i, k);
    }
  }

  /** As written, loading an image into a new model loads the submodels of
      orders `0` to `maxN - 1` and then fails on the `null` last slot, even
      when every neighbourhood is valid. */
  lemma NewThenLoadImageFails(maxN: int, nb: Neighborhood, img: Image)
    requires 0 <= maxN < TwoTo31 - 1
    requires WellFormed(img)
    requires forall n :: 0 <= n < maxN ==> nb(n).Success?
    ensures New(maxN, nb).Success?
    ensures LoadImage(New(maxN, nb).value, img).error == Some(NullReferenceException)
    ensures forall j :: 0 <= j < maxN ==>
      LoadImage(New(maxN, nb).value, img).model.submodels[j] ==
        Some(LoadFromImage(NewMarkovModel(j, nb), img).value)
    ensures LoadImage(New(maxN, nb).value, img).model.submodels[maxN] == None
  {
    var m := New(maxN, nb).value;
    var s := m.submodels;
    assert LoadsCleanly(s, img, 0, maxN) by {
      forall j | 0 <= j < maxN
        ensures s[j].Some? && LoadFromImage(s[j].value, img).Success?
      {
        assert s[j] == Some(NewMarkovModel(j, nb));
        assert nb(j).Success?;
      }
    }
    LoadFromUpTo(m, img, 0, maxN);
    var s' := Loaded(s, img, 0, maxN);
    assert s'[maxN] == None;
    assert LoadFrom(Model(s'), img, maxN) == Outcome(Model(s'), Some(NullReferenceException));
  }

  /** With every slot filled, loading an image whose neighbourhoods are all
      valid succeeds and loads every submodel, in order. */
  lemma NewIntendedThenLoadImageSucceeds(maxN: int, nb: Neighborhood, img: Image)
    requires -1 <= maxN < TwoTo31 - 1
    requires WellFormed(img)
    requires forall n :: 0 <= n <= maxN ==> nb(n).Success?
    ensures NewIntended(maxN, nb).Success?
    ensures LoadImage(NewIntended(maxN, nb).value, img).error == None
    ensures forall j :: 0 <= j <= maxN ==>
      LoadImage(NewIntended(maxN, nb).value, img).model.submodels[j] ==
        Some(LoadFromImage(NewMarkovModel(j, nb), img).value)
  {
    var m := NewIntended(maxN, nb).value;
    var s := m.submodels;
    assert LoadsCleanly(s, img, 0, |s|) by {
      forall j | 0 <= j < |s|
        ensures s[j].Some? && LoadFromImage(s[j].value, img).Success?
      {
        assert s[j] == Some(NewMarkovModel(j, nb));
        assert nb(j).Success?;
      }
    }
    LoadFromUpTo(m, img, 0, |s|);
  }
}
