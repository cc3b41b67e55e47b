/** Runs of the file container of src/file-container-esp8266.c: how many files can be created, in which slots and with
    which sectors. */
module FlashSlots {
  import opened Basics
  import opened FlashSectors

  function Sum(ns: seq<nat>): nat {
    if ns == [] then 0 else Sum(ns[..|ns| - 1]) + ns[|ns| - 1]
  }

  /** Files with these numbers of sectors are created one after the other; slots are the answers. */
  ghost predicate CreatedAll(before: seq<seq<nat>>, nums: seq<nat>, slots: seq<Option<nat>>, after: seq<seq<nat>>)
    requires before != []
    decreases |nums|
  {
    && |slots| == |nums|
    && if nums == [] then after == before else
         var k := |nums| - 1;
         exists mid ::
           mid != [] && CreatedAll(before, nums[..k], slots[..k], mid) && Created(mid, nums[k], slots[k], after)
  }

  /** The first slots have these numbers of sectors, the other slots none; the rest of the n sectors is free. */
  ghost predicate Filled(rings: seq<seq<nat>>, h: nat, n: nat, nums: seq<nat>) {
    && |rings| == h > |nums| && Sum(nums) <= n && |rings[0]| == n - Sum(nums) + 1
    && (forall a :: 1 <= a <= |nums| ==> |rings[a]| == nums[a - 1] + 1)
    && forall a :: |nums| < a < h ==> |rings[a]| == 1
  }

  lemma InitFilled(h: nat, n: nat)
    requires h > 0
    ensures Filled(InitRings(h, n), h, n, [])
  {
    var rings := InitRings(h, n);
    forall a | 0 < a < h
      ensures |rings[a]| == 1
    {
      assert |rings[a]| > 0 by {
        InitHasHeads(h, n, a);
      }
      InitRingsAt(h, n, a, 0);
    }
  }

  lemma {:induction false} InitHasHeads(h: nat, n: nat, a: nat)
    requires a < h
    ensures |InitRings(h, n)[a]| > 0
    decreases n
  {
    if n > 0 {
      InitHasHeads(h, n - 1, a);
    }
  }

  /** The next file gets the next slot exactly when there is one and the sectors suffice. */
  lemma NextSlot(h: nat, n: nat, nums: seq<nat>, num: nat, mid: seq<seq<nat>>, slot: Option<nat>, after: seq<seq<nat>>)
    requires h > 0 && Filled(mid, h, n, nums) && (forall i :: 0 <= i < |nums| ==> nums[i] > 0)
    requires Created(mid, num, slot, after)
    ensures slot.Some? <==> |nums| + 1 < h && Sum(nums) + num <= n
    ensures slot.Some? ==> slot.value == |nums| + 1 && Filled(after, h, n, nums + [num])
  {
    var k := |nums| + 1;
    forall a | 1 <= a < k && a < h
      ensures |mid[a]| != 1
    {
      assert nums[a - 1] > 0;
    }
    assert k < h ==> |mid[k]| == 1;
    assert (nums + [num])[..|nums|] == nums;
  }

  ghost predicate AllSome(slots: seq<Option<nat>>) {
    forall i :: 0 <= i < |slots| ==> slots[i].Some?
  }

  ghost predicate InOrder(slots: seq<Option<nat>>) {
    forall i :: 0 <= i < |slots| ==> slots[i] == Some(i + 1)
  }

  lemma LastCreated(before: seq<seq<nat>>, nums: seq<nat>, slots: seq<Option<nat>>, after: seq<seq<nat>>)
    returns (mid: seq<seq<nat>>)
    requires before != [] && CreatedAll(before, nums, slots, after) && nums != []
    ensures var k := |nums| - 1;
      |slots| == |nums| && mid != [] && CreatedAll(before, nums[..k], slots[..k], mid)
      && Created(mid, nums[k], slots[k], after)
  {
    var k := |nums| - 1;
    mid :| mid != [] && CreatedAll(before, nums[..k], slots[..k], mid) && Created(mid, nums[k], slots[k], after);
  }

  /** What holds of the files created so far holds with one more. */
  lemma OneMoreFile(h: nat, n: nat, nums: seq<nat>, slots: seq<Option<nat>>, mid: seq<seq<nat>>,
                    num: nat, slot: Option<nat>, after: seq<seq<nat>>)
    requires h > 0 && |slots| == |nums| && (forall i :: 0 <= i < |nums| ==> nums[i] > 0) && num > 0
    requires AllSome(slots) <==> |nums| <= h - 1 && Sum(nums) <= n
    requires AllSome(slots) ==> Filled(mid, h, n, nums) && InOrder(slots)
    requires mid != [] && Created(mid, num, slot, after)
    ensures AllSome(slots + [slot]) <==> |nums| + 1 <= h - 1 && Sum(nums) + num <= n
    ensures AllSome(slots + [slot]) ==> Filled(after, h, n, nums + [num]) && InOrder(slots + [slot])
  {
    var all := slots + [slot];
    assert all[..|slots|] == slots && all[|slots|] == slot;
    assert AllSome(all) ==> AllSome(slots) by {
      assert forall i :: 0 <= i < |slots| ==> slots[i] == all[i];
    }
    if AllSome(slots) {
      NextSlot(h, n, nums, num, mid, slot, after);
    }
  }

  lemma SumMore(nums: seq<nat>, num: nat)
    ensures Sum(nums + [num]) == Sum(nums) + num
  {
    assert (nums + [num])[..|nums|] == nums;
  }

  lemma {:induction false} AllCreated(before: seq<seq<nat>>, h: nat, n: nat, nums: seq<nat>, slots: seq<Option<nat>>,
                                      after: seq<seq<nat>>)
    requires h > 0 && before != [] && Filled(before, h, n, [])
    requires (forall i :: 0 <= i < |nums| ==> nums[i] > 0) && CreatedAll(before, nums, slots, after)
    ensures |slots| == |nums|
    ensures AllSome(slots) <==> |nums| <= h - 1 && Sum(nums) <= n
    ensures AllSome(slots) ==> Filled(after, h, n, nums) && InOrder(slots)
    decreases |nums|
  {
    if nums != [] {
      var k := |nums| - 1;
      var nums', slots' := nums[..k], slots[..k];
      var mid := LastCreated(before, nums, slots, after);
      AllCreated(before, h, n, nums', slots', mid);
      OneMoreFile(h, n, nums', slots', mid, nums[k], slots[k], after);
      SumMore(nums', nums[k]);
      assert nums' + [nums[k]] == nums && slots' + [slots[k]] == slots;
    }
  }

  /** After init, all of these files can be created if and only if there are slots for them and their sectors suffice.
      Every file then gets the next slot and its sectors, and all other sectors stay free. */
  lemma AllCreatedExactly(h: nat, n: nat, nums: seq<nat>, slots: seq<Option<nat>>, after: seq<seq<nat>>)
    requires h > 0 && (forall i :: 0 <= i < |nums| ==> nums[i] > 0) && CreatedAll(InitRings(h, n), nums, slots, after)
    ensures |slots| == |nums|
    ensures AllSome(slots) <==> |nums| <= h - 1 && Sum(nums) <= n
    ensures AllSome(slots) ==> Filled(after, h, n, nums) && InOrder(slots)
  {
    InitFilled(h, n);
    AllCreated(InitRings(h, n), h, n, nums, slots, after);
  }
}
