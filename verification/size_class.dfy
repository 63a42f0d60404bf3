/**
 * Choosing a state type's size class from its marshalled length (`GetSizeType`).
 * The code starts from the 8-byte class and takes the first enumeration value that
 * is both at least the length and strictly above the running choice, so the 4- and
 * 8-byte classes are never chosen, and a length above 256 leaves the 8-byte class.
 */
module SizeClass {
  import opened Wrappers
  import opened Payload

  /** What `GetSizeType` returns for `stateSize`, as the code is written. */
  ghost predicate IsAsWrittenSizeType(stateSize: int, c: nat) {
    if stateSize <= FixedBufferSize then
      && IsSizeClass(c) && stateSize <= c && 8 < c
      && forall d | d in Ladder && stateSize <= d && 8 < d :: c <= d
    else
      c == 8
  }

  /** The enumeration scan with its `break`, over the `Size` values in declaration order. */
  method GetSizeType(stateSize: int) returns (highestSizeCap: nat)
    ensures IsAsWrittenSizeType(stateSize, highestSizeCap)
  {
    highestSizeCap := 8;
    var i := 0;
    while i < |Ladder|
      invariant 0 <= i <= |Ladder|
      invariant highestSizeCap == 8
      invariant forall j | 0 <= j < i :: !(stateSize <= Ladder[j] && 8 < Ladder[j])
    {
      var sizeType := Ladder[i];
      if stateSize <= sizeType && highestSizeCap < sizeType {
        highestSizeCap := sizeType;
        forall d | d in Ladder && stateSize <= d && 8 < d
          ensures highestSizeCap <= d
        {
          var j :| 0 <= j < |Ladder| && Ladder[j] == d;
          assert j >= i;
        }
        assert stateSize <= FixedBufferSize by { LadderFitsBuffer(sizeType); }
        return;
      }
      i := i + 1;
    }
    assert FixedBufferSize in Ladder;
  }

  /** The as-written choice is a function of the length: no two results satisfy it. */
  lemma {:induction false} AsWrittenSizeTypeUnique(stateSize: int, c1: nat, c2: nat)
    requires IsAsWrittenSizeType(stateSize, c1) && IsAsWrittenSizeType(stateSize, c2)
    ensures c1 == c2
  {
    if stateSize <= FixedBufferSize {
      assert c1 <= c2 && c2 <= c1;
    }
  }

  /**
   * Consequences of the as-written choice: a 4-byte state gets the 16-byte class,
   * a 17-byte state the 32-byte class, and a 300-byte state the 8-byte class,
   * into which it cannot be set.
   */
  lemma {:induction false} AsWrittenSkipsSmallClasses(c4: nat, c17: nat, c300: nat)
    requires IsAsWrittenSizeType(4, c4)
    requires IsAsWrittenSizeType(17, c17)
    requires IsAsWrittenSizeType(300, c300)
    ensures c4 == 16 && c17 == 32 && c300 == 8 && c300 < 300
  {
    assert 16 in Ladder && 32 in Ladder;
    assert c4 <= 16 && c17 <= 32;
    var i4 :| 0 <= i4 < |Ladder| && Ladder[i4] == c4;
    var i17 :| 0 <= i17 < |Ladder| && Ladder[i17] == c17;
    assert i4 in {0, 1, 2, 3, 4, 5, 6, 7, 8, 9, 10};
    assert i17 in {0, 1, 2, 3, 4, 5, 6, 7, 8, 9, 10};
  }

  /** The evident intent: the smallest class that holds the state, and none above 256 bytes. */
  function SmallestSizeClass(stateSize: int): (r: Option<nat>)
  {
    FirstFitting(Ladder, stateSize)
  }

  function FirstFitting(classes: seq<nat>, stateSize: int): Option<nat>
  {
    if classes == [] then None
    else if stateSize <= classes[0] then Some(classes[0])
    else FirstFitting(classes[1..], stateSize)
  }

  lemma {:induction false} FirstFittingIsFirst(classes: seq<nat>, stateSize: int)
    ensures FirstFitting(classes, stateSize).Some? <==> exists d | d in classes :: stateSize <= d
    ensures FirstFitting(classes, stateSize).Some? ==>
      && FirstFitting(classes, stateSize).value in classes
      && stateSize <= FirstFitting(classes, stateSize).value
      && exists k | 0 <= k < |classes| :: classes[k] == FirstFitting(classes, stateSize).value
           && forall j | 0 <= j < k :: classes[j] < stateSize
  {
    if classes != [] && stateSize > classes[0] {
      FirstFittingIsFirst(classes[1..], stateSize);
      if FirstFitting(classes, stateSize).Some? {
        var k :| 0 <= k < |classes[1..]| && classes[1..][k] == FirstFitting(classes, stateSize).value
           && forall j | 0 <= j < k :: classes[1..][j] < stateSize;
        assert classes[k + 1] == FirstFitting(classes, stateSize).value;
        assert forall j | 0 <= j < k + 1 :: classes[j] < stateSize by {
          forall j | 0 <= j < k + 1 ensures classes[j] < stateSize {
            if j > 0 { assert classes[j] == classes[1..][j - 1]; }
          }
        }
      }
      if exists d | d in classes :: stateSize <= d {
        var d :| d in classes && stateSize <= d;
        assert d in classes[1..];
      }
      if exists d | d in classes[1..] :: stateSize <= d {
        var d :| d in classes[1..] && stateSize <= d;
        assert d in classes;
      }
    } else if classes != [] {
      assert classes[0] in classes;
    }
  }

  /**
   * The intended choice is defined exactly for lengths up to 256 and is then the
   * least class that holds the state: a 4-byte state gets 4, a 5-byte state 8,
   * a 33-byte state 48.
   */
  lemma {:induction false} SmallestSizeClassIsLeast(stateSize: int)
    ensures SmallestSizeClass(stateSize).Some? <==> stateSize <= FixedBufferSize
    ensures SmallestSizeClass(stateSize).Some? ==>
      && IsSizeClass(SmallestSizeClass(stateSize).value)
      && stateSize <= SmallestSizeClass(stateSize).value
      && forall d | d in Ladder && stateSize <= d :: SmallestSizeClass(stateSize).value <= d
  {
    FirstFittingIsFirst(Ladder, stateSize);
    assert FixedBufferSize in Ladder;
    forall d | d in Ladder ensures d <= FixedBufferSize { LadderFitsBuffer(d); }
    if SmallestSizeClass(stateSize).Some? {
      var c := SmallestSizeClass(stateSize).value;
      var k :| 0 <= k < |Ladder| && Ladder[k] == c && forall j | 0 <= j < k :: Ladder[j] < stateSize;
      forall d | d in Ladder && stateSize <= d ensures c <= d {
        var j :| 0 <= j < |Ladder| && Ladder[j] == d;
        assert j >= k;
        assert k in {0, 1, 2, 3, 4, 5, 6, 7, 8, 9, 10};
        assert j in {0, 1, 2, 3, 4, 5, 6, 7, 8, 9, 10};
      }
    }
  }

  /** Boundary values of the intended choice. */
  lemma IntendedBoundaries()
    ensures SmallestSizeClass(4) == Some(4) && SmallestSizeClass(5) == Some(8)
    ensures SmallestSizeClass(32) == Some(32) && SmallestSizeClass(33) == Some(48)
    ensures SmallestSizeClass(257) == None
  {
  }
}
