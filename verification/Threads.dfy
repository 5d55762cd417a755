/** The counting semaphore of the POSIX build, as far as its counters go. */
module Threads {

  /** The counter of a semaphore after one release; a release beyond the maximum is refused. */
  function Released(count: nat, max: nat): nat {
    if count + 1 > max then count else count + 1
  }

  datatype Outcome = Done | Invalid | TooManyPosts

  class Semaphore {
    var count: nat
    var maxCount: nat

    ghost predicate Valid()
      reads this
    {
      count <= maxCount < 0x1_0000_0000
    }

    /** `Semaphore_OptCreateInit`; counter and maximum stay when the arguments are refused. */
    method OptCreateInit(initCount: nat, max: nat) returns (res: Outcome)
      requires Valid() && max < 0x1_0000_0000
      modifies this
      ensures Valid()
      ensures res == if initCount > max || max < 1 then Invalid else Done
      ensures res.Done? ==> count == initCount && maxCount == max
      ensures !res.Done? ==> count == old(count) && maxCount == old(maxCount)
    {
      if initCount > max || max < 1 {
        return Invalid;
      }
      count := initCount;
      maxCount := max;
      return Done;
    }

    /**
     `Semaphore_ReleaseN`. The sum is a 32-bit word, so that a large release can wrap below the
     maximum; a release of one cannot, unless the maximum is the largest word.
     */
    method ReleaseN(releaseCount: nat) returns (res: Outcome)
      requires Valid() && releaseCount < 0x1_0000_0000
      modifies this`count
      ensures Valid()
      ensures res.Invalid? <==> releaseCount == 0
      ensures res.Done? ==> count == (old(count) + releaseCount) % 0x1_0000_0000
      ensures !res.Done? ==> count == old(count)
      ensures releaseCount == 1 && maxCount < 0xFFFF_FFFF ==>
                count == Released(old(count), maxCount) && (res.Done? <==> old(count) < maxCount)
    {
      if releaseCount < 1 {
        return Invalid;
      }
      var newCount := (count + releaseCount) % 0x1_0000_0000;
      if newCount > maxCount {
        return TooManyPosts;
      }
      count := newCount;
      return Done;
    }
  }
}
