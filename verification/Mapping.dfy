/** The guarded payload mapping: whole pages are mapped from the file, partial boundary pages are
    copied, and nothing of the file outside the payload can be seen. Memory protection is part of the
    cell: a guard cell cannot be read at all. */
module Mapping {
  import opened Bytes

  datatype Cell = Guard | Shown(b: byte)

  /** What the steps of the mapping agree on: the page holding the first byte, the page holding the
      byte after the last, the whole pages between, and the size of the mapped span. */
  datatype Layout = Layout(aligned: nat, last: nat, middleStart: nat, middleEnd: nat, span: nat)

  function RoundUp(n: nat, page: nat): nat
    requires page > 0
  {
    (n + page - 1) / page * page
  }

  function LayoutOf(offset: nat, size: nat, page: nat): Layout
    requires page > 0 && size > 0
  {
    PageBelow(offset, page);
    PageBelow(offset + size, page);
    var aligned, end := offset - offset % page, offset + size;
    var last := end - end % page;
    var up := if offset % page != 0 then aligned + page else offset;
    var middleStart := if up > end then end else up;
    Layout(aligned, last, middleStart, if last < middleStart then middleStart else last, RoundUp(end - aligned, page))
  }

  lemma PageBelow(n: nat, page: nat)
    requires page > 0
    ensures 0 <= n - n % page <= n < n - n % page + page && (n - n % page) % page == 0
  {
    assert n == n / page * page + n % page;
    Multiple(n / page, page);
  }

  lemma Multiple(k: nat, page: nat)
    requires page > 0
    ensures k * page % page == 0
    decreases k
  {
    if k > 0 {
      Multiple(k - 1, page);
      assert k * page == (k - 1) * page + page;
      AddPage((k - 1) * page, page);
    }
  }

  lemma AddPage(n: nat, page: nat)
    requires page > 0
    ensures (n + page) % page == n % page && (n + page) / page == n / page + 1
  {
    assert n == n / page * page + n % page;
    QuotientIs(n + page, page, n / page + 1, n % page);
  }

  /** Multiples of the page size are equal or a page apart. */
  lemma Apart(a: nat, b: nat, page: nat)
    requires page > 0 && a % page == 0 && b % page == 0 && a < b
    ensures a + page <= b
  {
    var x, y := a / page, b / page;
    assert a == x * page && b == y * page;
    if x > y {
      ProductsApart(y, x, page);
    } else if x < y {
      ProductsApart(x, y, page);
    }
  }

  /** Rounding up to whole pages. */
  lemma RoundedUp(n: nat, page: nat)
    requires page > 0
    ensures RoundUp(n, page) == if n % page == 0 then n else n - n % page + page
  {
    var q, r := n / page, n % page;
    assert n == q * page + r;
    ProductNext(q, page);
    if r == 0 {
      QuotientIs(n + page - 1, page, q, page - 1);
    } else {
      assert n + page - 1 == (q + 1) * page + (r - 1);
      QuotientIs(n + page - 1, page, q + 1, r - 1);
    }
  }

  /** Where everything lies, in terms that no longer divide. */
  lemma Lies(offset: nat, size: nat, page: nat)
    requires page > 0 && size > 0
    ensures var l, end := LayoutOf(offset, size, page), offset + size;
      && l.aligned <= offset < l.aligned + page && l.last <= end < l.last + page
      && (l.last == l.aligned || l.aligned + page <= l.last)
      && (offset % page == 0 <==> offset == l.aligned) && (end % page == 0 <==> end == l.last)
      && l.middleStart == (if offset == l.aligned then offset else if l.last == l.aligned then end else l.aligned + page)
      && l.middleEnd == (if l.last < l.middleStart then l.middleStart else l.last)
      && l.span == l.last - l.aligned + (if end == l.last then 0 else page)
      && (end != l.last ==> ((end - 1) / page != offset / page <==> l.last != l.aligned))
  {
    hide RoundUp;
    var end := offset + size;
    var aligned, last := offset - offset % page, end - end % page;
    PageBelow(offset, page);
    PageBelow(end, page);
    if last < aligned {
      Apart(last, aligned, page);
    } else if aligned < last {
      Apart(aligned, last, page);
    }
    Between(aligned, end, page);
    RoundedUp(end - aligned, page);
    if end != last {
      SamePage(end, page);
      SameNumber(offset, end, page);
    }
  }

  lemma SameNumber(a: nat, b: nat, page: nat)
    requires page > 0
    ensures a / page == b / page <==> a - a % page == b - b % page
  {
    var x, y := a / page, b / page;
    assert a == x * page + a % page && b == y * page + b % page;
    if x < y {
      ProductsApart(x, y, page);
    } else if y < x {
      ProductsApart(y, x, page);
    }
  }

  lemma Between(aligned: nat, end: nat, page: nat)
    requires page > 0 && aligned % page == 0 && aligned <= end
    ensures (end - aligned) % page == end % page
  {
    var q := aligned / page;
    assert aligned == q * page && end == end / page * page + end % page;
    if end / page < q {
      ProductsApart(end / page, q, page);
    }
    Distribute(end / page, q, page);
    QuotientIs(end - aligned, page, end / page - q, end % page);
  }

  lemma Distribute(a: nat, b: nat, page: nat)
    requires b <= a
    ensures (a - b) * page == a * page - b * page
  {
  }

  lemma SamePage(end: nat, page: nat)
    requires page > 0 && end % page != 0
    ensures (end - 1) / page == end / page
  {
    assert end == end / page * page + end % page;
    QuotientIs(end - 1, page, end / page, end % page - 1);
  }

  // ---------- what is shown ----------

  /** The whole reservation: a guard page, the payload's pages with zeros around it, a guard page. */
  function Guarded(file: seq<byte>, offset: nat, size: nat, page: nat): (m: seq<Cell>)
    requires page > 0 && size > 0 && offset + size <= |file|
  {
    var l := LayoutOf(offset, size, page);
    seq(l.span + 2 * page, i requires 0 <= i < l.span + 2 * page =>
      if i < page || i >= page + l.span then Guard
      else Inside(file, offset, size, l.aligned + i - page))
  }

  /** What a page of the payload shows of one offset: zero before and behind the payload. */
  function Inside(file: seq<byte>, offset: nat, size: nat, at: int): Cell
    requires offset + size <= |file|
  {
    if offset <= at < offset + size then Shown(file[at]) else Shown(0)
  }

  /** The region can be reserved in a 64-bit address space. */
  predicate Reservable(offset: nat, size: nat, page: nat)
    requires page > 0
  {
    && size != 0 && offset + size <= U64_MAX
    && offset % page + size + (page - 1) <= U64_MAX
    && RoundUp(offset % page + size, page) + 2 * page <= U64_MAX
  }

  /** File sizes and the page size are signed 64-bit numbers. */
  const SIGNED_MAX: nat := 0x7fff_ffff_ffff_ffff

  /** Sums of the mapping that no check guards stay inside 64 bits all the same. */
  lemma NoSumWraps(offset: nat, size: nat, page: nat)
    requires 0 < page <= SIGNED_MAX && offset + size <= SIGNED_MAX
    ensures offset + (page - offset % page) <= U64_MAX
    ensures offset - offset % page + page <= U64_MAX && page * 2 <= U64_MAX
  {
    PageBelow(offset, page);
  }

  datatype View = View(memory: array<Cell>, start: nat, size: nat)

  /** Shows part of a file in place: a private mapping, or a copy. */
  method Show(memory: array<Cell>, at: nat, file: seq<byte>, from: nat, count: nat)
    requires at + count <= memory.Length && from + count <= |file|
    modifies memory
    ensures forall i :: 0 <= i < memory.Length ==>
      memory[i] == if at <= i < at + count then Shown(file[from + i - at]) else old(memory[i])
  {
    for k := 0 to count
      invariant forall i :: 0 <= i < memory.Length ==>
        memory[i] == if at <= i < at + k then Shown(file[from + i - at]) else old(memory[i])
    {
      memory[at + k] := Shown(file[from + k]);
    }
  }

  /** A fresh zero page. */
  method ZeroPage(memory: array<Cell>, at: nat, page: nat)
    requires at + page <= memory.Length
    modifies memory
    ensures forall i :: 0 <= i < memory.Length ==>
      memory[i] == if at <= i < at + page then Shown(0) else old(memory[i])
  {
    for k := 0 to page
      invariant forall i :: 0 <= i < memory.Length ==>
        memory[i] == if at <= i < at + k then Shown(0) else old(memory[i])
    {
      memory[at + k] := Shown(0);
    }
  }

  /** Maps a payload region of a file. */
  method MapPayload(file: seq<byte>, offset: nat, size: nat, page: nat) returns (v: Option<View>)
    requires 0 < page <= SIGNED_MAX && offset + size <= |file| <= SIGNED_MAX
    ensures v.Some? <==> Reservable(offset, size, page)
    ensures v.Some? ==> fresh(v.value.memory) && size > 0 && v.value.memory[..] == Guarded(file, offset, size, page)
    ensures v.Some? ==> v.value.start == page + offset % page && v.value.size == size
  {
    hide LayoutOf, RoundUp;
    if size == 0 || offset > U64_MAX - size {
      return None;
    }
    var aligned := offset - offset % page;
    var delta := offset - aligned;
    if delta > U64_MAX - size || delta + size > U64_MAX - (page - 1) {
      return None;
    }
    var span := RoundUp(delta + size, page);
    if span > U64_MAX || span + 2 * page > U64_MAX {
      return None;
    }
    var memory := new Cell[span + page * 2](_ => Guard);
    var end := offset + size;
    var middleStart := offset;
    if middleStart % page != 0 {
      NoSumWraps(offset, size, page);
      middleStart := middleStart + (page - middleStart % page);
      assert middleStart <= U64_MAX;
    }
    if middleStart > end {
      middleStart := end;
    }
    var middleEnd := end - end % page;
    if middleEnd < middleStart {
      middleEnd := middleStart;
    }
    Lies(offset, size, page);
    SameLayout(offset, size, page);
    if middleEnd > middleStart {
      Show(memory, page + (middleStart - aligned), file, middleStart, middleEnd - middleStart);
    }
    CopyBoundaries(memory, file, offset, size, page);
    v := Some(View(memory, page + delta, size));
  }

  /** A fresh zero page with part of a file copied into it. */
  method CopyPage(memory: array<Cell>, at: nat, page: nat, skip: nat, file: seq<byte>, from: nat, count: nat)
    requires at + page <= memory.Length && skip + count <= page && from + count <= |file|
    modifies memory
    ensures forall i :: 0 <= i < memory.Length ==>
      memory[i] == if !(at <= i < at + page) then old(memory[i])
                   else if at + skip <= i < at + skip + count then Shown(file[from + i - at - skip])
                   else Shown(0)
  {
    ZeroPage(memory, at, page);
    Show(memory, at + skip, file, from, count);
  }

  /** Copies the partial pages at either end, each onto a fresh zero page. */
  method CopyBoundaries(memory: array<Cell>, file: seq<byte>, offset: nat, size: nat, page: nat)
    requires page > 0 && size > 0 && offset + size <= |file|
    requires var l := LayoutOf(offset, size, page);
      && memory.Length == l.span + 2 * page
      && forall i :: 0 <= i < memory.Length ==>
           memory[i] == if l.middleStart <= l.aligned + i - page < l.middleEnd then Shown(file[l.aligned + i - page]) else Guard
    modifies memory
    ensures memory[..] == Guarded(file, offset, size, page)
  {
    hide LayoutOf, RoundUp, Inside;
    Lies(offset, size, page);
    SameLayout(offset, size, page);
    CopyFirst(memory, file, offset, size, page);
    CopyLast(memory, file, offset, size, page);
    ghost var l := LayoutOf(offset, size, page);
    forall i | 0 <= i < memory.Length
      ensures memory[i] == if i < page || i >= page + l.span then Guard else Inside(file, offset, size, l.aligned + i - page)
    {
      InsideMeans(file, offset, size, l.aligned + i - page);
    }
  }

  lemma InsideMeans(file: seq<byte>, offset: nat, size: nat, at: int)
    requires offset + size <= |file|
    ensures Inside(file, offset, size, at) == if offset <= at < offset + size then Shown(file[at]) else Shown(0)
  {
  }

  /** The page the payload begins in, unless it is a whole one. */
  method CopyFirst(memory: array<Cell>, file: seq<byte>, offset: nat, size: nat, page: nat)
    requires page > 0 && size > 0 && offset + size <= |file| && memory.Length >= 2 * page
    modifies memory
    ensures var aligned := offset - offset % page;
      forall i :: 0 <= i < memory.Length ==>
        memory[i] == if page <= i < 2 * page && (offset != aligned || offset + size < aligned + page)
                     then Inside(file, offset, size, aligned + i - page) else old(memory[i])
  {
    PageBelow(offset, page);
    var aligned, end := offset - offset % page, offset + size;
    var delta := offset - aligned;
    var firstPageEnd := aligned + page;
    var firstEnd := if end < firstPageEnd then end else firstPageEnd;
    if offset != aligned || end < firstPageEnd {
      CopyPage(memory, page, page, delta, file, offset, firstEnd - offset);
    }
  }

  /** The page it ends in, if that is another one and not a whole one. */
  method CopyLast(memory: array<Cell>, file: seq<byte>, offset: nat, size: nat, page: nat)
    requires page > 0 && size > 0 && offset + size <= |file|
    requires var l := LayoutOf(offset, size, page); memory.Length == l.span + 2 * page
    modifies memory
    ensures var l := LayoutOf(offset, size, page);
      forall i :: 0 <= i < memory.Length ==>
        memory[i] == if offset + size != l.last && l.last != l.aligned && l.last <= l.aligned + i - page < l.last + page
                     then Inside(file, offset, size, l.aligned + i - page) else old(memory[i])
  {
    hide LayoutOf, RoundUp;
    Lies(offset, size, page);
    SameLayout(offset, size, page);
    var aligned, end := offset - offset % page, offset + size;
    if end % page != 0 && (end - 1) / page != offset / page {
      var lastStart := end - end % page;
      CopyPage(memory, page + (lastStart - aligned), page, 0, file, lastStart, end - lastStart);
    }
  }

  lemma SameLayout(offset: nat, size: nat, page: nat)
    requires page > 0 && size > 0
    ensures var l, end := LayoutOf(offset, size, page), offset + size;
      && l.aligned == offset - offset % page && l.last == end - end % page
      && l.span == RoundUp(offset % page + size, page)
  {
    PageBelow(offset, page);
  }

  /** Every byte of the payload is shown in place; every other readable byte is zero. */
  lemma ShownExactly(file: seq<byte>, offset: nat, size: nat, page: nat, i: nat)
    requires page > 0 && size > 0 && offset + size <= |file|
    requires i < |Guarded(file, offset, size, page)|
    ensures var m, start := Guarded(file, offset, size, page), page + offset % page;
      && start + size <= |m|
      && (start <= i < start + size ==> m[i] == Shown(file[offset + (i - start)]))
      && (!(start <= i < start + size) ==> m[i] == Shown(0) || m[i] == Guard)
      && (i < page || i >= |m| - page <==> m[i] == Guard)
  {
    hide LayoutOf, RoundUp, Inside;
    Lies(offset, size, page);
    SameLayout(offset, size, page);
    var aligned := LayoutOf(offset, size, page).aligned;
    InsideMeans(file, offset, size, aligned + i - page);
    assert aligned + i - page == offset + (i - (page + offset % page));
  }
}
