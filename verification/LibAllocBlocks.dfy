/**
  The data structure of kernel/libsmk/liballoc.c: page blocks ("majors") holding address-ordered
  allocations ("minors"), the gaps between them, and the sums that the allocator keeps.
 */
module LibAllocBlocks {
  import opened Bits
  import opened Seqs

  const MAJOR: nat := 24       // sizeof(struct liballoc_major)
  const MINOR: nat := 24       // sizeof(struct liballoc_minor)
  const PAGE_SIZE: nat := 4096
  const PAGE_COUNT: nat := 16
  const ALIGNMENT: nat := 4
  const ALIGN_INFO: nat := 2

  datatype Minor = Minor(addr: nat, size: nat, req: nat) {
    function End(): nat { addr + MINOR + size }
  }

  datatype Major = Major(addr: nat, pages: nat, size: nat, usage: nat, minors: seq<Minor>) {
    function End(): nat { addr + size }
  }

  // ---------- One block ----------

  function SizeOf(n: Minor): nat { n.size }

  /** Where the gap before the k-th minor starts, and where it ends. */
  function GapStart(m: Major, k: nat): nat
    requires k <= |m.minors|
  {
    if k == 0 then m.addr + MAJOR else m.minors[k - 1].End()
  }

  function GapEnd(m: Major, k: nat): nat
    requires k <= |m.minors|
  {
    if k == |m.minors| then m.End() else m.minors[k].addr
  }

  /** The minors lie inside the block, in address order, without overlap. */
  ghost predicate Packed(m: Major) {
    && m.size >= MAJOR
    && (forall k :: 0 <= k <= |m.minors| ==> GapStart(m, k) <= GapEnd(m, k))
  }

  /** A well-formed block lies in the 32-bit address space, behind page 0. */
  ghost predicate MajorOk(m: Major) {
    && Packed(m) && PAGE_SIZE <= m.addr && m.End() <= TWO32
    && m.size == m.pages * PAGE_SIZE
    && m.usage == MAJOR + MINOR * |m.minors| + Sum(m.minors, SizeOf)
  }

  /** Gap `k` has at least `need` bytes. */
  predicate GapHas(m: Major, k: nat, need: nat)
    requires k <= |m.minors|
  {
    GapStart(m, k) + need <= GapEnd(m, k)
  }

  /** Some gap of the block has at least `need` bytes. */
  ghost predicate Has(m: Major, need: nat) {
    exists k :: 0 <= k <= |m.minors| && GapHas(m, k, need)
  }

  /** The space from the start of gap `k` to the end of the block, minus the minors in it. */
  lemma {:induction false} RestOfBlock(m: Major, k: nat)
    requires Packed(m) && k <= |m.minors|
    ensures GapStart(m, k) + MINOR * (|m.minors| - k) + Sum(m.minors[k..], SizeOf) <= m.End()
    ensures GapEnd(m, k) + MINOR * (|m.minors| - k) + Sum(m.minors[k..], SizeOf) <= m.End()
    decreases |m.minors| - k
  {
    if k < |m.minors| {
      assert m.minors[k..][1..] == m.minors[k + 1..];
      RestOfBlock(m, k + 1);
    }
  }

  /** The minors before gap `k` and the block header end no later than the gap starts. */
  lemma {:induction false} StartOfBlock(m: Major, k: nat)
    requires Packed(m) && k <= |m.minors|
    ensures m.addr + MAJOR + MINOR * k + Sum(m.minors[..k], SizeOf) <= GapStart(m, k)
  {
    if k > 0 {
      StartOfBlock(m, k - 1);
      assert m.minors[..k] == m.minors[..k - 1] + [m.minors[k - 1]];
      SumAppend(m.minors[..k - 1], SizeOf, m.minors[k - 1]);
    }
  }

  lemma {:induction false} SumSplit(s: seq<Minor>, k: nat)
    requires k <= |s|
    ensures Sum(s, SizeOf) == Sum(s[..k], SizeOf) + Sum(s[k..], SizeOf)
  {
    if k == 0 {
      assert s[0..] == s;
    } else {
      assert s[..k][1..] == s[1..][..k - 1] && s[1..][k - 1..] == s[k..];
      SumSplit(s[1..], k - 1);
    }
  }

  /** No gap is larger than the free space that the block accounts for: the soundness of "case 1". */
  lemma GapWithinFree(m: Major, k: nat)
    requires MajorOk(m) && k <= |m.minors|
    ensures m.usage <= m.size
    ensures GapEnd(m, k) - GapStart(m, k) <= m.size - m.usage
  {
    StartOfBlock(m, k);
    RestOfBlock(m, k);
    SumSplit(m.minors, k);
  }

  /** The block with a new minor at the start of gap `k`; the usage is a 32-bit number. */
  function WithMinor(m: Major, k: nat, size: nat, req: nat): Major
    requires k <= |m.minors|
  {
    m.(minors := InsertAt(m.minors, k, Minor(GapStart(m, k), size, req)), usage := (m.usage + size + MINOR) % TWO32)
  }

  lemma PlaceInGap(m: Major, k: nat, size: nat, req: nat)
    requires MajorOk(m) && k <= |m.minors| && GapHas(m, k, size + MINOR)
    ensures MajorOk(WithMinor(m, k, size, req))
  {
    GapWithinFree(m, k);
    hide Sum;
    var n := WithMinor(m, k, size, req);
    SumInsert(m.minors, SizeOf, k, Minor(GapStart(m, k), size, req));
    forall j | 0 <= j <= |n.minors| ensures GapStart(n, j) <= GapEnd(n, j) {
      assert j <= k ==> GapStart(n, j) == GapStart(m, j);
      assert j > k ==> GapEnd(n, j) == GapEnd(m, j - 1);
      assert GapStart(m, if j <= k then j else j - 1) <= GapEnd(m, if j <= k then j else j - 1);
    }
  }

  /** The block without its k-th minor. */
  function WithoutMinor(m: Major, k: nat): Major
    requires k < |m.minors| && m.usage >= m.minors[k].size + MINOR
  {
    m.(minors := RemoveAt(m.minors, k), usage := m.usage - (m.minors[k].size + MINOR))
  }

  lemma DropMinor(m: Major, k: nat)
    requires MajorOk(m) && k < |m.minors|
    ensures m.usage >= m.minors[k].size + MINOR
    ensures MajorOk(WithoutMinor(m, k))
  {
    SumRemove(m.minors, SizeOf, k);
    hide Sum;
    var n := WithoutMinor(m, k);
    forall j | 0 <= j <= |n.minors| ensures GapStart(n, j) <= GapEnd(n, j) {
      assert GapStart(m, j) <= GapEnd(m, j);
      assert GapStart(m, j + 1) <= GapEnd(m, j + 1);
    }
  }

  /** Minors of one block are disjoint and inside it. */
  lemma MinorsOrdered(m: Major, i: nat, j: nat)
    requires Packed(m) && i < j < |m.minors|
    ensures m.minors[i].End() <= m.minors[j].addr
    decreases j - i
  {
    assert GapStart(m, j) <= GapEnd(m, j);
    if i + 1 < j {
      MinorsOrdered(m, i, j - 1);
    }
  }

  lemma MinorInside(m: Major, i: nat)
    requires Packed(m) && i < |m.minors|
    ensures m.addr + MAJOR <= m.minors[i].addr && m.minors[i].End() <= m.End()
  {
    if i > 0 {
      MinorsOrdered(m, 0, i);
    }
    if i + 1 < |m.minors| {
      MinorsOrdered(m, i, |m.minors| - 1);
    }
    assert GapStart(m, 0) <= GapEnd(m, 0);
    assert GapStart(m, |m.minors|) <= GapEnd(m, |m.minors|);
  }
}
