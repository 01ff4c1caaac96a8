/**
  The search of memory_multiple_alloc (kernel/src/physmem.c) over the bitmap of physical frames: it starts
  behind the last grant, wraps around once, skips what it knows to be taken, and jumps over the end of the
  map. What it finds, and what its jump passes over, without reference to the loop.
 */
module FrameSearch {

  const TOTAL_PAGES: nat := 0x10_0000  // bits of the bitmap
  const MAXMAP: nat := 0x8000          // pages that the search covers
  const RESERVED: nat := 256           // the first megabyte, taken at start-up

  /** Frames `q` to `q + pages - 1` are all free. */
  ghost predicate FreeRun(used: seq<bool>, q: int, pages: nat) {
    0 <= q && q + pages <= MAXMAP && MAXMAP <= |used| && forall f :: q <= f < q + pages ==> !used[f]
  }

  /** The first taken frame from `from` on, or MAXMAP. */
  ghost function FirstUsed(used: seq<bool>, from: nat): (u: nat)
    requires from <= MAXMAP <= |used|
    ensures from <= u <= MAXMAP && (u < MAXMAP ==> used[u]) && forall f :: from <= f < u ==> !used[f]
    decreases MAXMAP - from
  {
    if from == MAXMAP || used[from] then from else FirstUsed(used, from + 1)
  }

  lemma FirstUsedIs(used: seq<bool>, from: nat, u: nat)
    requires from <= u < MAXMAP <= |used| && used[u] && forall f :: from <= f < u ==> !used[f]
    ensures FirstUsed(used, from) == u
  {
    hide FirstUsed;
  }

  /**
    Where the search goes on after the end of the map. The first position `end` from which the run no
    longer fits is the starting point itself or follows a taken frame; from there it jumps by pages - 1.
   */
  ghost function Resume(used: seq<bool>, last: nat, pages: nat): (r: nat)
    requires last <= MAXMAP <= |used| && pages > 0
    ensures r < pages
  {
    var end := if last + pages > MAXMAP then last else FirstUsed(used, MAXMAP - pages) + 1;
    if end >= MAXMAP then 0 else end + pages - 1 - MAXMAP
  }

  /** The search does not pass over position `q`. */
  ghost predicate Reached(used: seq<bool>, last: nat, pages: nat, q: int)
    requires last <= MAXMAP <= |used| && pages > 0
  {
    q >= last || q >= Resume(used, last, pages)
  }

  /** How far behind the last grant a position is in the order of the search. */
  function Turn(last: nat, q: int): int { if q >= last then q - last else q + MAXMAP - last }

  /** Some free run of that length is reached. */
  ghost predicate CanGrant(used: seq<bool>, last: nat, pages: nat)
    requires last <= MAXMAP <= |used| && pages > 0
  {
    exists q :: FreeRun(used, q, pages) && Reached(used, last, pages, q)
  }

  /** The run at `q` is the first free one in the order of the search. */
  ghost predicate FirstRun(used: seq<bool>, last: nat, pages: nat, q: int)
    requires last <= MAXMAP <= |used| && pages > 0
  {
    && FreeRun(used, q, pages) && Reached(used, last, pages, q)
    && forall p :: FreeRun(used, p, pages) && Reached(used, last, pages, p) ==> Turn(last, q) <= Turn(last, p)
  }

  // ---------- The state of the search ----------

  /** No run starts free between two positions. */
  ghost predicate NoneFree(used: seq<bool>, pages: nat, from: int, to: int) {
    forall q :: from <= q < to ==> !FreeRun(used, q, pages)
  }

  /** What is known when the search stands at `at`, counted without wrapping. */
  ghost predicate Searched(used: seq<bool>, last: nat, pages: nat, at: nat)
    requires last <= MAXMAP <= |used| && pages > 0
  {
    last <= at &&
    if at < MAXMAP then
      && NoneFree(used, pages, last, at)
      && (at + pages > MAXMAP ==> at + pages == Resume(used, last, pages) + 1 + MAXMAP)
    else
      && NoneFree(used, pages, last, MAXMAP)
      && NoneFree(used, pages, Resume(used, last, pages), at - MAXMAP)
      && Resume(used, last, pages) <= at - MAXMAP
  }

  lemma SearchStarts(used: seq<bool>, last: nat, pages: nat)
    requires last <= MAXMAP <= |used| && pages > 0
    ensures Searched(used, last, pages, last)
  {
    hide FirstUsed;
  }

  /** The run at the position is blocked by its frame `j`. */
  lemma BlockedStep(used: seq<bool>, last: nat, pages: nat, at: nat, pos: nat, j: nat)
    requires last <= MAXMAP <= |used| && pages > 0 && Searched(used, last, pages, at)
    requires at == pos || at == pos + MAXMAP
    requires pos + pages <= MAXMAP && j < pages && used[pos + j] && forall f :: pos <= f < pos + j ==> !used[f]
    ensures Searched(used, last, pages, at + j + 1)
  {
    forall q | pos <= q < pos + j + 1 ensures !FreeRun(used, q, pages) {
      assert used[pos + j];
    }
    if at < MAXMAP {
      if pos + j + 1 + pages > MAXMAP {
        FirstUsedIs(used, MAXMAP - pages, pos + j);
      }
      hide FirstUsed, FreeRun;
      NoneFits(used, pages);
    }
  }

  lemma NoneFits(used: seq<bool>, pages: nat)
    ensures forall q :: q + pages > MAXMAP ==> !FreeRun(used, q, pages)
  {
  }

  /** From the position the run does not fit. */
  lemma JumpStep(used: seq<bool>, last: nat, pages: nat, at: nat, pos: nat)
    requires last <= MAXMAP <= |used| && pages > 0 && Searched(used, last, pages, at)
    requires pos < MAXMAP && (at == pos || at == pos + MAXMAP) && pos + pages > MAXMAP
    ensures Searched(used, last, pages, at + pages - 1)
  {
    NoneFits(used, pages);
    hide FirstUsed, FreeRun, Resume;
  }

  lemma SearchFails(used: seq<bool>, last: nat, pages: nat, at: nat)
    requires last <= MAXMAP <= |used| && pages > 0 && Searched(used, last, pages, at) && at >= last + MAXMAP
    ensures !CanGrant(used, last, pages)
  {
    NoneFits(used, pages);
    hide Resume, FreeRun;
  }

  lemma SearchFinds(used: seq<bool>, last: nat, pages: nat, at: nat, pos: nat)
    requires last <= MAXMAP <= |used| && pages > 0 && Searched(used, last, pages, at) && at < last + MAXMAP
    requires pos < MAXMAP && (at == pos || at == pos + MAXMAP) && FreeRun(used, pos, pages)
    ensures FirstRun(used, last, pages, pos) && CanGrant(used, last, pages)
  {
    NoneFits(used, pages);
    hide Resume;
    forall p | FreeRun(used, p, pages) && Reached(used, last, pages, p) ensures Turn(last, pos) <= Turn(last, p) {
    }
  }

  // ---------- When no free run is missed ----------

  /**
    With the first megabyte taken, a request of at most 258 pages is granted if and only if some run of
    that length is free: what the jump passes over cannot hold it.
   */
  lemma NothingMissed(used: seq<bool>, last: nat, pages: nat)
    requires last <= MAXMAP <= |used| && 0 < pages <= RESERVED + 2 && forall f :: 0 <= f < RESERVED ==> used[f]
    ensures CanGrant(used, last, pages) <==> exists q :: FreeRun(used, q, pages)
  {
    hide FirstUsed;
    forall q | FreeRun(used, q, pages) ensures Reached(used, last, pages, q) {
      assert !used[q];
      ResumeBound(used, last, pages);
    }
  }

  lemma ResumeBound(used: seq<bool>, last: nat, pages: nat)
    requires last <= MAXMAP <= |used| && pages > 0
    ensures Resume(used, last, pages) + 2 <= pages || Resume(used, last, pages) == 0
  {
    hide FirstUsed;
  }

  /**
    A larger request can be refused although a run of its length is free: 301 frames behind the first
    megabyte are free, the last grant ended two frames before the end of the map, and 300 are asked for.
   */
  lemma RunMissed(used: seq<bool>)
    requires |used| == TOTAL_PAGES && forall f :: 0 <= f < TOTAL_PAGES ==> used[f] == !(256 <= f < 557)
    ensures FreeRun(used, 256, 300) && FreeRun(used, 257, 300) && !CanGrant(used, MAXMAP - 2, 300)
  {
    forall q | FreeRun(used, q, 300) ensures q == 256 || q == 257 {
      assert !used[q] && !used[q + 299];
    }
    assert Resume(used, MAXMAP - 2, 300) == 297;
  }
}
