/**
 * The matching rule both front-ends apply to one probe. `distances` holds the
 * probe's distance to every stored encoding, in the dict's key order (what
 * `face_distance` returns); the rule picks the first position of the smallest
 * distance (`argmin`) and accepts it only below the threshold, 0.6 in both
 * programs. The two programs differ in their guard:
 *  - the window program only calls `argmin` when `distances.any()`, i.e. when
 *    some distance is non-zero (GuardedMatch);
 *  - the console program calls `np.argmin` unguarded, which raises on an empty
 *    gallery (UnguardedMatch).
 */
module Matcher {
  import opened Wrappers

  /**
   * The threshold both programs compare against: the float64 nearest to the literal 0.6,
   * which lies just below the real number 0.6. A distance equal to this float is rejected.
   */
  const Tolerance: real := 0.59999999999999997779553950749686919152736663818359375

  /** The label both programs start from and keep when nothing is accepted. */
  const UnknownLabel := "Unknown"

  /** `k` is the first position holding the smallest distance. */
  ghost predicate IsFirstMin(distances: seq<real>, k: nat)
  {
    && k < |distances|
    && (forall j :: 0 <= j < |distances| ==> distances[k] <= distances[j])
    && (forall j :: 0 <= j < k ==> distances[k] < distances[j])
  }

  /** `argmin`: the first position of the minimum. */
  function FirstArgMin(distances: seq<real>): (k: nat)
    requires |distances| > 0
    ensures IsFirstMin(distances, k)
  {
    if |distances| == 1 then 0
    else
      var k := FirstArgMin(distances[..|distances| - 1]);
      if distances[|distances| - 1] < distances[k] then |distances| - 1 else k
  }

  /** `distances.any()`: some distance is non-zero. */
  predicate AnyNonZero(distances: seq<real>)
  {
    exists i :: 0 <= i < |distances| && distances[i] != 0.0
  }

  /**
   * Window program: `best_match_index = distances.argmin() if distances.any() else None`,
   * accepted when `distances[best_match_index] < threshold`. The result is the accepted position.
   */
  function GuardedMatch(distances: seq<real>, threshold: real): (r: Option<nat>)
    ensures r.Some? ==> AnyNonZero(distances) && IsFirstMin(distances, r.value) && distances[r.value] < threshold
  {
    if AnyNonZero(distances) then
      var k := FirstArgMin(distances);
      if distances[k] < threshold then Some(k) else None
    else None
  }

  /** The exception `np.argmin` raises on an empty sequence. */
  datatype MatchError = EmptyArgMin

  /**
   * Console program: `best_match_index = np.argmin(distances)`, accepted when
   * `distances[best_match_index] < threshold`; raises on an empty gallery.
   */
  function UnguardedMatch(distances: seq<real>, threshold: real): (r: Result<Option<nat>, MatchError>)
    ensures r.Failure? <==> |distances| == 0
    ensures r.Success? && r.value.Some? ==> IsFirstMin(distances, r.value.value) && distances[r.value.value] < threshold
  {
    if |distances| == 0 then Failure(EmptyArgMin)
    else
      var k := FirstArgMin(distances);
      Success(if distances[k] < threshold then Some(k) else None)
  }

  /** `name = list(known_faces.keys())[best_match_index]` if accepted, else the initial "Unknown". */
  function Label(names: seq<string>, accepted: Option<nat>): (shown: string)
    requires accepted.Some? ==> accepted.value < |names|
    ensures accepted.None? ==> shown == UnknownLabel
    ensures accepted.Some? ==> shown == names[accepted.value]
  {
    match accepted
    case None => UnknownLabel
    case Some(k) => names[k]
  }

  /**
   * The intended matching policy, stated without `argmin`: an empty gallery, or one
   * where no distance is below the threshold, gives no match; otherwise the match is
   * the first position of the smallest distance, and that distance is below the threshold.
   */
  ghost predicate FollowsPolicy(distances: seq<real>, threshold: real, accepted: Option<nat>)
  {
    && (accepted.None? <==> forall i :: 0 <= i < |distances| ==> distances[i] >= threshold)
    && (accepted.Some? ==> IsFirstMin(distances, accepted.value) && distances[accepted.value] < threshold)
  }

  /** There is only one first position of the minimum. */
  lemma FirstMinUnique(distances: seq<real>, k: nat, m: nat)
    requires IsFirstMin(distances, k) && IsFirstMin(distances, m)
    ensures k == m
  {
    assert distances[k] <= distances[m] && distances[m] <= distances[k];
  }

  /**
   * Window program, exactly: a position `k` is accepted iff some distance is non-zero,
   * `k` is the first position of the minimum, and its distance is strictly below the threshold.
   */
  lemma GuardedAcceptIff(distances: seq<real>, threshold: real, k: nat)
    ensures GuardedMatch(distances, threshold) == Some(k) <==>
            AnyNonZero(distances) && IsFirstMin(distances, k) && distances[k] < threshold
  {
    if AnyNonZero(distances) && IsFirstMin(distances, k) {
      FirstMinUnique(distances, k, FirstArgMin(distances));
    }
  }

  /**
   * Window program, exactly: the result is "Unknown" iff the gallery is empty, every
   * distance is exactly 0, or no distance is below the threshold.
   */
  lemma GuardedRejectIff(distances: seq<real>, threshold: real)
    ensures GuardedMatch(distances, threshold).None? <==>
            || |distances| == 0
            || (forall i :: 0 <= i < |distances| ==> distances[i] == 0.0)
            || (forall i :: 0 <= i < |distances| ==> distances[i] >= threshold)
  {
    if AnyNonZero(distances) {
      var k := FirstArgMin(distances);
      if distances[k] >= threshold {
        forall i | 0 <= i < |distances| ensures distances[i] >= threshold {
          assert distances[k] <= distances[i];
        }
      }
    }
  }

  /**
   * Console program, exactly: it raises iff the gallery is empty; otherwise it accepts
   * position `k` iff `k` is the first position of the minimum and its distance is below the threshold.
   */
  lemma UnguardedIff(distances: seq<real>, threshold: real, k: nat)
    ensures UnguardedMatch(distances, threshold).Failure? <==> |distances| == 0
    ensures UnguardedMatch(distances, threshold) == Success(Some(k)) <==>
            IsFirstMin(distances, k) && distances[k] < threshold
    ensures UnguardedMatch(distances, threshold) == Success(None) <==>
            |distances| > 0 && forall i :: 0 <= i < |distances| ==> distances[i] >= threshold
  {
    if |distances| > 0 {
      var m := FirstArgMin(distances);
      if IsFirstMin(distances, k) {
        FirstMinUnique(distances, k, m);
      }
      if distances[m] >= threshold {
        forall i | 0 <= i < |distances| ensures distances[i] >= threshold {
          assert distances[m] <= distances[i];
        }
      }
    }
  }

  /** On a non-empty gallery the console program follows the policy. */
  lemma UnguardedFollowsPolicy(distances: seq<real>, threshold: real)
    requires |distances| > 0
    ensures UnguardedMatch(distances, threshold).Success?
    ensures FollowsPolicy(distances, threshold, UnguardedMatch(distances, threshold).value)
  {
    var m := FirstArgMin(distances);
    if distances[m] >= threshold {
      forall i | 0 <= i < |distances| ensures distances[i] >= threshold {
        assert distances[m] <= distances[i];
      }
    }
  }

  /**
   * The window program follows the policy in every case except one: a non-empty gallery
   * whose distances are all exactly 0 under a positive threshold, where the policy accepts
   * the first entry and the `any()` guard gives "Unknown".
   */
  lemma GuardedFollowsPolicyIff(distances: seq<real>, threshold: real)
    ensures FollowsPolicy(distances, threshold, GuardedMatch(distances, threshold)) <==>
            !(|distances| > 0 && (forall i :: 0 <= i < |distances| ==> distances[i] == 0.0) && 0.0 < threshold)
  {
    if AnyNonZero(distances) {
      UnguardedFollowsPolicy(distances, threshold);
    } else if |distances| > 0 && 0.0 < threshold {
      assert distances[0] == 0.0 && !(distances[0] >= threshold);
    }
  }

  /** Whenever some distance is non-zero the two programs accept the same position. */
  lemma VariantsAgree(distances: seq<real>, threshold: real)
    requires AnyNonZero(distances)
    ensures UnguardedMatch(distances, threshold) == Success(GuardedMatch(distances, threshold))
  {
  }

  /**
   * An exact match (distance 0) in a gallery of non-negative distances is accepted by the
   * console program under any positive threshold, at the first zero distance.
   */
  lemma UnguardedAcceptsExactMatch(distances: seq<real>, threshold: real, j: nat)
    requires forall i :: 0 <= i < |distances| ==> distances[i] >= 0.0
    requires j < |distances| && distances[j] == 0.0
    requires 0.0 < threshold
    ensures UnguardedMatch(distances, threshold).Success?
    ensures UnguardedMatch(distances, threshold).value.Some?
    ensures var k := UnguardedMatch(distances, threshold).value.value;
            k <= j && distances[k] == 0.0
  {
    var k := FirstArgMin(distances);
    assert distances[k] <= distances[j];
  }

  /**
   * In the window program the same exact match gives "Unknown" when every distance is 0
   * (a one-person gallery probed with that person's own enrollment encoding, for one),
   * while the console program accepts the first entry.
   */
  lemma AllZeroDistancesDiverge(distances: seq<real>, threshold: real)
    requires |distances| > 0
    requires forall i :: 0 <= i < |distances| ==> distances[i] == 0.0
    requires 0.0 < threshold
    ensures GuardedMatch(distances, threshold) == None
    ensures UnguardedMatch(distances, threshold) == Success(Some(0))
  {
    var k := FirstArgMin(distances);
    assert distances[k] == distances[0];
  }

  /** The threshold is strict: a distance equal to it is rejected by both programs. */
  lemma AtThresholdRejected(distances: seq<real>, threshold: real)
    requires forall i :: 0 <= i < |distances| ==> distances[i] >= threshold
    ensures GuardedMatch(distances, threshold) == None
    ensures |distances| > 0 ==> UnguardedMatch(distances, threshold) == Success(None)
  {
    if |distances| > 0 {
      var k := FirstArgMin(distances);
      assert distances[k] >= threshold;
    }
  }

  /** A distance equal to the float written `0.6` is rejected by both programs. */
  lemma FloatLiteralRejected()
    ensures GuardedMatch([Tolerance], Tolerance) == None
    ensures UnguardedMatch([Tolerance], Tolerance) == Success(None)
    ensures Tolerance < 0.6
  {
    AtThresholdRejected([Tolerance], Tolerance);
  }

  /** An empty gallery: "Unknown" in the window program, an exception in the console program. */
  lemma EmptyGallery(threshold: real)
    ensures GuardedMatch([], threshold) == None
    ensures UnguardedMatch([], threshold) == Failure(EmptyArgMin)
  {
  }
}
