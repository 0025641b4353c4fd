/** `LoopVec` of src/app/loop_vec.rs: a vector with a current index that
    wraps around at both ends. The vector itself is never replaced, so it is
    a `const`: `Deref` only reads it, and `get_current_mut` hands out the
    current element for update in place. The index is the state that
    `inc` and `dec` change. */
module LoopVecs {
  import opened RustStd

  /** The index after `inc`: one step forward modulo the length; with no
      elements `checked_rem` fails and the index stays. */
  function Incremented(index: nat, len: nat): (r: nat)
    ensures index < len ==> r < len
    ensures len == 0 ==> r == index
  {
    if len == 0 then index else (index + 1) % len
  }

  /** The index after `dec`: one step back, from 0 to the last element.
      The source computes `len() - 1`, which underflows on an empty vec. */
  function Decremented(index: nat, len: nat): (r: nat)
    requires len > 0
    ensures index < len ==> r < len
  {
    if index > 0 then index - 1 else len - 1
  }

  /** The invariant of a `LoopVec`'s index: in bounds, or 0 on an empty vec. */
  predicate InBounds(index: nat, len: nat) {
    index < len || index == 0
  }

  /** The largest `usize` of a 64-bit target. */
  const USIZE_MAX: nat := 0xFFFF_FFFF_FFFF_FFFF

  /** `dec` as written, in a release build: `unwrap_or(self.len() - 1)`
      evaluates `len() - 1` before it knows whether it needs it, and on an
      empty vec that subtraction wraps around (a debug build panics). */
  function DecrementedUsize(index: nat, len: nat): (r: nat)
    requires index <= USIZE_MAX && len <= USIZE_MAX
    ensures r <= USIZE_MAX
    ensures len > 0 ==> r == Decremented(index, len)
  {
    if index > 0 then index - 1 else (len + USIZE_MAX) % (USIZE_MAX + 1)
  }

  /** On an empty vec `dec` as written leaves the index at `usize::MAX`: the
      index is neither in bounds nor 0 any more, and the next `inc` overflows
      `index + 1`. */
  lemma DecOnEmptyBreaksInvariant()
    ensures DecrementedUsize(0, 0) == USIZE_MAX
    ensures !InBounds(DecrementedUsize(0, 0), 0)
    ensures DecrementedUsize(0, 0) + 1 > USIZE_MAX
  {
  }

  /** The intended `dec`: like `inc`, it leaves the index alone on an empty vec. */
  function DecrementedOrStay(index: nat, len: nat): (r: nat)
    ensures index < len ==> r < len
    ensures len == 0 ==> r == index
    ensures len > 0 ==> r == Decremented(index, len)
  {
    if len == 0 then index else Decremented(index, len)
  }

  /** The intended `dec` and `inc` undo each other on every valid index,
      the empty vec included. */
  lemma IncDecOrStayInverse(index: nat, len: nat)
    requires InBounds(index, len)
    ensures DecrementedOrStay(Incremented(index, len), len) == index
    ensures Incremented(DecrementedOrStay(index, len), len) == index
  {
    if len > 0 {
      IncDecInverse(index, len);
    }
  }

  /** `inc` undoes `dec` and `dec` undoes `inc` on an index in bounds. */
  lemma IncDecInverse(index: nat, len: nat)
    requires index < len
    ensures Decremented(Incremented(index, len), len) == index
    ensures Incremented(Decremented(index, len), len) == index
  {
    if index + 1 < len {
      assert (index + 1) % len == index + 1;
    } else {
      assert (index + 1) % len == 0;
    }
    if index == 0 {
      assert len % len == 0;
    } else {
      assert index % len == index;
    }
  }

  /** From the start, `inc` visits every element in order and returns to
      the first after `len` steps. */
  lemma {:induction false} IncVisitsAll(len: nat, steps: nat)
    requires 0 < len && steps <= len
    ensures IncrementedBy(0, len, steps) == if steps < len then steps else 0
  {
    if steps > 0 {
      IncVisitsAll(len, steps - 1);
      var prev := steps - 1;
      if steps < len {
        ModBelow(steps, len);
      } else {
        assert Incremented(prev, len) == len % len == 0;
      }
    }
  }

  lemma ModBelow(x: nat, n: nat)
    requires x < n
    ensures x % n == x
  {
  }

  /** `steps` calls of `inc`. */
  function IncrementedBy(index: nat, len: nat, steps: nat): nat {
    if steps == 0 then index else Incremented(IncrementedBy(index, len, steps - 1), len)
  }

  class LoopVec<T> {
    var index: nat
    const vec: seq<T>

    /** The index is in bounds, or 0 on an empty vec. */
    ghost predicate Valid()
      reads this
    {
      InBounds(index, |vec|)
    }

    /** `LoopVec::new`. */
    constructor New()
      ensures Valid() && index == 0 && vec == []
    {
      index := 0;
      vec := [];
    }

    /** `Default::default`, which is `new`. */
    constructor Default()
      ensures Valid() && index == 0 && vec == []
    {
      index := 0;
      vec := [];
    }

    /** `FromIterator::from_iter`: the collected elements, at index 0. */
    constructor FromIter(elements: seq<T>)
      ensures Valid() && index == 0 && vec == elements
    {
      index := 0;
      vec := elements;
    }

    /** `get_current`: the element at the index, `None` when the index is past
      the end, as on an empty vec. */
    function GetCurrent(): (r: Option<T>)
      reads this
      ensures r.Some? <==> index < |vec|
      ensures r.Some? ==> r.value == vec[index]
    {
      if index < |vec| then Some(vec[index]) else None
    }

    /** `index`: the stored index, in bounds whenever there is an element. */
    function Index(): (r: nat)
      reads this
      requires Valid()
      ensures r == index
      ensures |vec| > 0 ==> r < |vec|
      ensures r < |vec| <==> GetCurrent().Some?
    {
      index
    }

    /** `inc`. The elements never change and the index stays in bounds. */
    method Inc()
      requires Valid()
      modifies this
      ensures Valid()
      ensures index == Incremented(old(index), |vec|)
      ensures |vec| > 0 ==> index == (old(index) + 1) % |vec|
      ensures |vec| == 0 ==> index == old(index)
    {
      index := if |vec| == 0 then index else (index + 1) % |vec|;
    }

    /** `dec`, on a non-empty vec. The elements never change and the index
        stays in bounds. */
    method Dec()
      requires Valid() && |vec| > 0
      modifies this
      ensures Valid()
      ensures index == Decremented(old(index), |vec|)
      ensures old(index) > 0 ==> index == old(index) - 1
      ensures old(index) == 0 ==> index == |vec| - 1
    {
      index := if index > 0 then index - 1 else |vec| - 1;
    }

    /** The intended `dec`: on an empty vec the index stays at 0, as `inc`
        leaves it; otherwise one step back, wrapping from 0 to the last
        element. */
    method DecOrStay()
      requires Valid()
      modifies this
      ensures Valid()
      ensures index == DecrementedOrStay(old(index), |vec|)
      ensures |vec| == 0 ==> index == old(index)
    {
      if |vec| > 0 {
        index := if index > 0 then index - 1 else |vec| - 1;
      }
    }
  }
}
