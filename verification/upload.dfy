/**
 The bulk upload loop of the uploader (`UploadImages`).

 The images loaded from disk are replaced by one abstract `Outcome` per image,
 in list order: `Ok` when the remote "create images from data" call returns
 normally for that image, `Fail` when it throws. The loop itself keeps two
 counters, `count` (images considered) and `uploadCounter` (uploads that
 returned normally); the model also returns `attempts`, the indices handed to
 the remote call, in the order the calls are made.
 */
module Upload {

  /** What the remote call does with one image, were it to be attempted. */
  datatype Outcome = Ok | Fail

  /** Strictly increasing: every index occurs once, in list order. */
  predicate Increasing(s: seq<nat>) {
    forall a, b :: 0 <= a < b < |s| ==> s[a] < s[b]
  }

  /** Every index in `idxs` names an image of `images`. */
  predicate InRange(images: seq<Outcome>, idxs: seq<nat>) {
    forall j :: 0 <= j < |idxs| ==> idxs[j] < |images|
  }

  /** `idxs` holds exactly the indices below `k` that are multiples of `skip`. */
  predicate StrideSelection(idxs: seq<nat>, k: nat, skip: int)
    requires skip >= 1
  {
    && (forall i :: i in idxs ==> i < k && i % skip == 0)
    && (forall i: nat :: i < k && i % skip == 0 ==> i in idxs)
  }

  /** The indices below `k` that the stride selects, in the order the loop
      reaches them. */
  function StrideIndices(k: nat, skip: int): (r: seq<nat>)
    requires skip >= 1
    ensures |r| <= k
  {
    if k == 0 then []
    else StrideIndices(k - 1, skip) + (if (k - 1) % skip == 0 then [k - 1] else [])
  }

  /** The stride selects exactly the multiples of `skip` below `k`, each once
      and in increasing order. */
  lemma {:induction false} StrideIndicesExact(k: nat, skip: int)
    requires skip >= 1
    ensures StrideSelection(StrideIndices(k, skip), k, skip)
    ensures Increasing(StrideIndices(k, skip))
  {
    if k > 0 {
      var prev := StrideIndices(k - 1, skip);
      StrideIndicesExact(k - 1, skip);
      StrideStep(k - 1, skip);
      if (k - 1) % skip == 0 {
        forall j | 0 <= j < |prev|
          ensures prev[j] < k - 1
        {
          assert prev[j] in prev;
        }
      }
    }
  }

  /** How many of the indices `idxs` name an image whose upload returns
      normally. An index past the end names no image and counts as nothing. */
  function OkCount(images: seq<Outcome>, idxs: seq<nat>): (r: nat)
    ensures r <= |idxs|
  {
    if idxs == [] then 0
    else
      var last := idxs[|idxs| - 1];
      OkCount(images, idxs[..|idxs| - 1])
      + (if last < |images| && images[last] == Ok then 1 else 0)
  }

  /** How many of the first `k` images are both selected by the stride and
      uploaded without an exception: the tally counted position by position. */
  function SuccessesBelow(images: seq<Outcome>, k: nat, skip: int): (r: nat)
    requires skip >= 1 && k <= |images|
    ensures r <= k
  {
    if k == 0 then 0
    else
      SuccessesBelow(images, k - 1, skip)
      + (if (k - 1) % skip == 0 && images[k - 1] == Ok then 1 else 0)
  }

  /** Counting position by position and counting over the attempt trace agree. */
  lemma {:induction false} SuccessesAreOkAttempts(images: seq<Outcome>, k: nat, skip: int)
    requires skip >= 1 && k <= |images|
    ensures SuccessesBelow(images, k, skip) == OkCount(images, StrideIndices(k, skip))
  {
    if k == 0 {
      assert StrideIndices(k, skip) == [];
    } else {
      SuccessesAreOkAttempts(images, k - 1, skip);
      OkAttemptsStep(images, k - 1, skip);
    }
  }

  /** Looking at one more image raises the tally over the attempt trace exactly
      when that image is selected by the stride and its upload succeeds. */
  lemma OkAttemptsStep(images: seq<Outcome>, k: nat, skip: int)
    requires skip >= 1 && k < |images|
    ensures OkCount(images, StrideIndices(k + 1, skip))
            == OkCount(images, StrideIndices(k, skip))
               + (if k % skip == 0 && images[k] == Ok then 1 else 0)
  {
    var prev := StrideIndices(k, skip);
    StrideStep(k, skip);
    if k % skip == 0 {
      OkCountAppend(images, prev, k);
    }
  }

  /** `UploadImages`. The images are considered in list order; the position
      of the image in the list and `count` advance together, once per image.
      A `Fail` outcome is the caught exception: nothing is counted and the
      loop goes on with the next image. The cap `max * skip` is evaluated
      once here and the loop itself is `ScanImages`. */
  method UploadImages(images: seq<Outcome>, max: int, skip: int)
    returns (count: nat, uploadCounter: nat, attempts: seq<nat>)
    requires skip >= 1
    ensures max * skip >= 1 ==> count == (if |images| < max * skip then |images| else max * skip)
    ensures max * skip < 1 ==> count == |images|
    ensures InRange(images, attempts)
    ensures Increasing(attempts)
    ensures StrideSelection(attempts, count, skip)
    ensures uploadCounter == OkCount(images, attempts)
    ensures uploadCounter <= |attempts|
    ensures max >= 1 ==> uploadCounter <= max
    ensures attempts == StrideIndices(count, skip)
    ensures max >= 1 ==> |attempts| <= max
  {
    var cap := max * skip;
    count, uploadCounter, attempts := ScanImages(images, skip, cap);
    StrideIndicesExact(count, skip);
    forall j | 0 <= j < |attempts|
      ensures attempts[j] < |images|
    {
      assert attempts[j] in attempts;
    }
    SuccessesAreOkAttempts(images, count, skip);
    if max >= 1 {
      AttemptsAtMostMax(count, max, skip);
    }
  }

  /** The loop itself, with the cap `max * skip` already evaluated: it stops
      after the image that brings `count` to `cap`, or at the end of the list. */
  method ScanImages(images: seq<Outcome>, skip: int, cap: int)
    returns (count: nat, uploadCounter: nat, attempts: seq<nat>)
    requires skip >= 1
    ensures cap >= 1 ==> count == (if |images| < cap then |images| else cap)
    ensures cap < 1 ==> count == |images|
    ensures count <= |images|
    ensures attempts == StrideIndices(count, skip)
    ensures uploadCounter == SuccessesBelow(images, count, skip)
  {
    count := 0;
    uploadCounter := 0;
    attempts := [];
    while count < |images|
      invariant count <= |images|
      invariant cap >= 1 ==> count < cap
      invariant attempts == StrideIndices(count, skip)
      invariant uploadCounter == SuccessesBelow(images, count, skip)
    {
      StrideStep(count, skip);
      if count % skip == 0 {
        attempts := attempts + [count];
        if images[count] == Ok {
          uploadCounter := uploadCounter + 1;
        }
      }
      count := count + 1;
      if count == cap {
        break;
      }
    }
    CapStopsAt(|images|, cap, count);
  }

  /** Looking at position `k` selects it exactly when it is a multiple of `skip`. */
  lemma StrideStep(k: nat, skip: int)
    requires skip >= 1
    ensures k % skip == 0 ==> StrideIndices(k + 1, skip) == StrideIndices(k, skip) + [k]
    ensures k % skip != 0 ==> StrideIndices(k + 1, skip) == StrideIndices(k, skip)
  {
    if k % skip != 0 {
      assert StrideIndices(k, skip) + [] == StrideIndices(k, skip);
    }
  }

  /** Where the loop stops: it runs out of images, or `count` meets a cap of at
      least 1, whichever comes first. */
  lemma CapStopsAt(n: nat, cap: int, count: nat)
    requires count <= n && (cap >= 1 ==> count <= cap)
    requires count == n || (count == cap && cap >= 1)
    ensures cap >= 1 ==> count == (if n < cap then n else cap)
    ensures cap < 1 ==> count == n
  {
  }

  /** Attempting one more image adds one to the tally exactly when its upload
      returns normally. */
  lemma OkCountAppend(images: seq<Outcome>, idxs: seq<nat>, i: nat)
    requires i < |images|
    ensures OkCount(images, idxs + [i])
            == OkCount(images, idxs) + (if images[i] == Ok then 1 else 0)
  {
    assert (idxs + [i])[..|idxs|] == idxs;
  }

  /** Division and remainder are determined by any decomposition `a == q * d + r`
      with `0 <= r < d`. */
  lemma DivModUnique(a: int, d: int, q: int, r: int)
    requires d >= 1 && 0 <= r < d && a == q * d + r
    ensures a / d == q && a % d == r
  {
    var q0, r0 := a / d, a % d;
    assert a == q0 * d + r0;
    if q > q0 {
      MulAtLeast(q - q0, d);
      assert false;
    } else if q < q0 {
      MulAtLeast(q0 - q, d);
      assert false;
    }
  }

  /** A positive multiple of `d` is at least `d`. */
  lemma {:induction false} MulAtLeast(x: int, d: nat)
    requires x >= 1
    ensures x * d >= d
  {
    if x > 1 {
      MulAtLeast(x - 1, d);
      assert x * d == (x - 1) * d + d;
    }
  }

  /** `a / d` rounded up grows by one from `a` to `a + 1` exactly when `a` is a
      multiple of `d`. */
  lemma CeilStep(a: nat, d: int)
    requires d >= 1
    ensures (a + d) / d == (a + d - 1) / d + (if a % d == 0 then 1 else 0)
  {
    var q, r := a / d, a % d;
    DivModUnique(a + d, d, q + 1, r);
    if r == 0 {
      DivModUnique(a + d - 1, d, q, d - 1);
    } else {
      DivModUnique(a + d - 1, d, q + 1, r - 1);
    }
  }

  /** Among the first `k` images, the stride selects `k / skip` rounded up. */
  lemma {:induction false} StrideCount(k: nat, skip: int)
    requires skip >= 1
    ensures |StrideIndices(k, skip)| == (k + skip - 1) / skip
  {
    if k == 0 {
      DivModUnique(skip - 1, skip, 0, skip - 1);
    } else {
      StrideCount(k - 1, skip);
      CeilStep(k - 1, skip);
    }
  }

  /** The cap counts images considered, yet it also bounds the attempts: with
      `max >= 1`, at most `max` images are handed to the remote call. */
  lemma AttemptsAtMostMax(k: nat, max: int, skip: int)
    requires skip >= 1 && max >= 1
    requires max * skip >= 1 ==> k <= max * skip
    ensures |StrideIndices(k, skip)| <= max
  {
    MulAtLeast(max, skip);
    StrideCount(k, skip);
    DivModUnique(max * skip + skip - 1, skip, max, skip - 1);
    DivMonotone(k + skip - 1, max * skip + skip - 1, skip);
  }

  /** Division by a positive number is monotone. */
  lemma DivMonotone(a: int, b: int, d: int)
    requires d >= 1 && a <= b
    ensures a / d <= b / d
  {
    var qa, qb := a / d, b / d;
    assert a == qa * d + a % d;
    assert b == qb * d + b % d;
    if qa > qb {
      MulAtLeast(qa - qb, d);
      assert false;
    }
  }

  /** With the hard-coded stride of 1, every image up to the cap is attempted
      once, in list order. */
  lemma {:induction false} UnitStrideAttemptsAll(k: nat)
    ensures |StrideIndices(k, 1)| == k
    ensures forall i :: 0 <= i < k ==> StrideIndices(k, 1)[i] == i
  {
    if k > 0 {
      UnitStrideAttemptsAll(k - 1);
    }
  }

  /** When every remote call returns normally, every attempted image is counted. */
  lemma {:induction false} AllOkCountsEveryAttempt(images: seq<Outcome>, idxs: seq<nat>)
    requires InRange(images, idxs)
    requires forall j :: 0 <= j < |images| ==> images[j] == Ok
    ensures OkCount(images, idxs) == |idxs|
  {
    if idxs != [] {
      AllOkCountsEveryAttempt(images, idxs[..|idxs| - 1]);
    }
  }

  /** A failing call for image `i` removes exactly that image from the tally,
      if it was attempted and would otherwise have succeeded, and changes
      nothing else. */
  lemma {:induction false} FailureExcludedFromTally(images: seq<Outcome>, idxs: seq<nat>, i: nat)
    requires Increasing(idxs) && i < |images|
    ensures OkCount(images[i := Fail], idxs)
            == OkCount(images, idxs) - (if i in idxs && images[i] == Ok then 1 else 0)
  {
    if idxs != [] {
      LastIsNew(idxs);
      FailureExcludedFromTally(images, idxs[..|idxs| - 1], i);
    }
  }

  /** In a strictly increasing list, the last index is not among the earlier
      ones, and the earlier ones are again strictly increasing. */
  lemma LastIsNew(idxs: seq<nat>)
    requires Increasing(idxs) && idxs != []
    ensures Increasing(idxs[..|idxs| - 1])
    ensures idxs[|idxs| - 1] !in idxs[..|idxs| - 1]
    ensures forall i :: i in idxs <==> i in idxs[..|idxs| - 1] || i == idxs[|idxs| - 1]
  {
    var init, last := idxs[..|idxs| - 1], idxs[|idxs| - 1];
    assert idxs == init + [last];
    forall j | 0 <= j < |init|
      ensures init[j] < last
    {
      assert init[j] == idxs[j];
    }
  }

  /** Four images, `max = 10`, `skip = 2` (so all four are considered), the
      first attempted upload fails: indices 0 and 2 are attempted and one
      upload is counted. */
  method StrideTwoFirstFails() returns (count: nat, uploadCounter: nat, attempts: seq<nat>)
    ensures count == 4
    ensures attempts == [0, 2]
    ensures uploadCounter == 1
  {
    count, uploadCounter, attempts := UploadImages([Fail, Ok, Ok, Ok], 10, 2);
    StrideTwoTrace();
  }

  /** The stride-2 selection among four positions, unfolded step by step. */
  lemma StrideTwoTrace()
    ensures StrideIndices(4, 2) == [0, 2]
    ensures OkCount([Fail, Ok, Ok, Ok], [0, 2]) == 1
  {
    StrideStep(0, 2);
    assert StrideIndices(1, 2) == [0];
    StrideStep(1, 2);
    StrideStep(2, 2);
    assert StrideIndices(3, 2) == [0] + [2];
    StrideStep(3, 2);
    assert [0, 2][..1] == [0];
  }
}
