/** The search the page allocator runs, as a function on the bitmap's flags. */
module NextFit {

  datatype Option<+T> = None | Some(value: T)

  /** Pages s .. s+n all lie below the limit |used| and are all free. */
  predicate FreeRun(used: seq<bool>, s: nat, n: nat)
  {
    s + n <= |used| && forall k :: s <= k < s + n ==> !used[k]
  }

  /** The first free run of n pages that starts at `from` or later. */
  function FirstRun(used: seq<bool>, from: nat, n: nat): (r: Option<nat>)
    ensures r.Some? ==> from <= r.value && FreeRun(used, r.value, n)
    ensures r.Some? ==> forall s :: from <= s < r.value ==> !FreeRun(used, s, n)
    ensures r.None? ==> forall s :: from <= s ==> !FreeRun(used, s, n)
    decreases |used| - from
  {
    if |used| < from + n then None
    else if FreeRun(used, from, n) then Some(from)
    else if from == |used| then None
    else FirstRun(used, from + 1, n)
  }

  /** No run of n free pages starts in from .. to. */
  ghost predicate NoRun(used: seq<bool>, from: nat, to: nat, n: nat)
  {
    forall s :: from <= s < to ==> !FreeRun(used, s, n)
  }

  /** A used page ends every run that would reach over it. */
  lemma NoRunAcross(used: seq<bool>, from: nat, pos: nat, acc: nat, n: nat)
    requires pos < |used| && used[pos] && acc < n && acc <= pos && NoRun(used, from, pos - acc, n)
    ensures NoRun(used, from, pos + 1, n)
  {}

  lemma FirstRunIs(used: seq<bool>, from: nat, s: nat, n: nat)
    requires from <= s && FreeRun(used, s, n) && NoRun(used, from, s, n)
    ensures FirstRun(used, from, n) == Some(s)
  {
    var r := FirstRun(used, from, n);
  }

  lemma FirstRunNone(used: seq<bool>, from: nat, acc: nat, n: nat)
    requires acc < n && acc <= |used| && NoRun(used, from, |used| - acc, n)
    ensures FirstRun(used, from, n) == None
  {
    var r := FirstRun(used, from, n);
  }

  /** With page 0 in use, an answer of 0 can only mean failure. */
  lemma FirstRunNotZero(used: seq<bool>, from: nat, n: nat)
    requires 0 < n && (|used| > 0 ==> used[0])
    ensures FirstRun(used, from, n) != Some(0)
  {
    var r := FirstRun(used, from, n);
    if r.Some? { assert !used[r.value]; }
  }

  /** Both passes: from the cursor to the limit, then from page 0 up to where the first pass stopped. */
  function Search(used: seq<bool>, cursor: nat, n: nat): Option<nat>
  {
    match FirstRun(used, cursor, n)
    case Some(s) => Some(s)
    case None => FirstRun(used, 0, n)
  }

  /** The allocator fails exactly when no run of n free pages exists below the limit,
      wherever the cursor stood. */
  lemma SearchComplete(used: seq<bool>, cursor: nat, n: nat)
    ensures Search(used, cursor, n).None? <==> forall s: nat :: !FreeRun(used, s, n)
    ensures Search(used, cursor, n).Some? ==> FreeRun(used, Search(used, cursor, n).value, n)
  {
    if forall s: nat :: !FreeRun(used, s, n) {
      assert FirstRun(used, cursor, n).None?;
    }
  }

  /** One page can be had as long as one page is free. */
  lemma OnePageSearch(used: seq<bool>, cursor: nat, page: nat)
    requires page < |used| && !used[page]
    ensures Search(used, cursor, 1).Some?
  {
    assert FreeRun(used, page, 1);
    SearchComplete(used, cursor, 1);
  }

  lemma {:induction false} RunFoundSurvives(used: seq<bool>, tail: seq<bool>, from: nat, n: nat)
    requires FirstRun(used, from, n).Some?
    ensures FirstRun(used + tail, from, n) == FirstRun(used, from, n)
    decreases |used| - from
  {
    if FreeRun(used, from, n) {
      assert FreeRun(used + tail, from, n);
    } else {
      assert !FreeRun(used + tail, from, n) by {
        var k :| from <= k < from + n && used[k];
        assert (used + tail)[k];
      }
      RunFoundSurvives(used, tail, from + 1, n);
    }
  }

  /** `Pmm::alloc` passes 4096 bits of limit for each byte of bitmap, eight of which are the bitmap's own, so its
      first pass may read on into whatever memory follows. That is harmless, for every content of that memory,
      exactly when the bitmap itself has a fitting run at or after the cursor. */
  lemma OversizedLimit(used: seq<bool>, cursor: nat, n: nat)
    requires cursor <= |used| && 0 < n
    ensures (exists s: nat :: cursor <= s && FreeRun(used, s, n)) <==>
            forall tail: seq<bool> {:trigger used + tail} ::
              n <= |tail| ==> Search(used + tail, cursor, n).Some? && Search(used + tail, cursor, n).value + n <= |used|
  {
    if FirstRun(used, cursor, n).Some? {
      forall tail: seq<bool> | n <= |tail|
        ensures Search(used + tail, cursor, n).Some? && Search(used + tail, cursor, n).value + n <= |used|
      {
        RunFoundSurvives(used, tail, cursor, n);
      }
    } else {
      var tail := seq(n, _ => false);
      var all := used + tail;
      assert FreeRun(all, |used|, n);
      var s := FirstRun(all, cursor, n).value;
      assert cursor <= s;
      assert Search(all, cursor, n) == Some(s);
      if s + n <= |used| {
        assert FreeRun(used, s, n) by {
          forall k | s <= k < s + n ensures !used[k] { assert !all[k]; }
        }
        assert false;
      }
    }
  }
}
