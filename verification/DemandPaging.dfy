/** A region of memory filled in page by page as it is first touched, and the eight passes
    the demonstration makes over it. */
module DemandPaging {
  import opened Quotients

  const STEP := 1024
  const ADDRESS_BITS := 64
  const ADDRESS_END := 0x1_0000_0000_0000_0000

  // ---------- rounding a faulting address down ----------

  function BitAnd(x: nat, y: nat): nat {
    if x == 0 || y == 0 then 0 else 2 * BitAnd(x / 2, y / 2) + if x % 2 == 1 && y % 2 == 1 then 1 else 0
  }

  // ~x on w bits.
  function Complement(x: nat, w: nat): nat
    requires x < Pow2(w)
  {
    Pow2(w) - 1 - x
  }

  lemma {:induction false} AndOnes(x: nat, w: nat)
    requires x < Pow2(w)
    ensures BitAnd(x, Pow2(w) - 1) == x
  {
    if w > 0 && x > 0 {
      AndOnes(x / 2, w - 1);
    }
  }

  lemma AndDouble(x: nat, m: nat)
    ensures BitAnd(x, 2 * m) == 2 * BitAnd(x / 2, m)
  {
    assert 2 * m / 2 == m && 2 * m % 2 == 0;
    if x == 0 || m == 0 {
      assert BitAnd(x / 2, m) == 0;
    }
  }

  /** For any power of two, `address & ~(page_size - 1)` is the start of the page that holds
      the address. */
  lemma {:induction false} MaskIsPageStart(address: nat, k: nat, w: nat)
    requires k <= w && address < Pow2(w)
    ensures Pow2(k) - 1 < Pow2(w)
    ensures BitAnd(address, Complement(Pow2(k) - 1, w)) == address / Pow2(k) * Pow2(k)
  {
    hide BitAnd;
    PowGrows(k, w);
    if k == 0 {
      AndOnes(address, w);
    } else {
      MaskIsPageStart(address / 2, k - 1, w - 1);
      var d := Pow2(k - 1);
      assert Complement(Pow2(k) - 1, w) == 2 * Complement(d - 1, w - 1);
      AndDouble(address, Complement(d - 1, w - 1));
      QuotientOfHalf(address, d);
      DoubleProduct(address / Pow2(k), d);
    }
  }

  lemma DoubleProduct(q: nat, d: nat)
    ensures 2 * (q * d) == q * (2 * d)
  {
  }

  // A region of whole pages of at least 1024 bytes each, where mmap may put it.
  predicate Placed(base: nat, pages: nat, shift: nat) {
    && 10 <= shift <= ADDRESS_BITS
    && base % Pow2(shift) == 0 && base + pages * Pow2(shift) <= ADDRESS_END
  }

  // Any range of whole pages of the address space will do.
  lemma {:induction false} PlacedAtAnyPage(first: nat, pages: nat, shift: nat)
    requires 10 <= shift <= 64 && (first + pages) * Pow2(shift) <= 0x1_0000_0000_0000_0000
    ensures Placed(first * Pow2(shift), pages, shift)
  {
    var d := Pow2(shift);
    hide Pow2;
    assert first * d + pages * d == (first + pages) * d;
    QuotientIs(first * d, first, d);
    Remainder(first * d, d);
  }

  lemma AddressEnd()
    ensures Pow2(ADDRESS_BITS) == ADDRESS_END
  {
    hide Pow2;
    PowFour();
    PowSum(4, 4);
    PowSum(8, 8);
    PowSum(16, 16);
    PowSum(32, 32);
  }

  // The page the handler fills is the page of the access.
  lemma {:induction false} MaskedPage(base: nat, p: nat, o: nat, pages: nat, shift: nat)
    requires Placed(base, pages, shift) && p < pages && o < Pow2(shift)
    ensures Pow2(shift) - 1 < Pow2(ADDRESS_BITS) && base + p * Pow2(shift) + o < Pow2(ADDRESS_BITS)
    ensures
      var start := BitAnd(base + p * Pow2(shift) + o, Complement(Pow2(shift) - 1, ADDRESS_BITS));
      start >= base && (start - base) / Pow2(shift) == p
  {
    AddressEnd();
    hide Pow2, BitAnd, Complement;
    var d := Pow2(shift);
    var address, first := base + p * d + o, base / d;
    MulMono(p + 1, pages, d);
    Remainder(base, d);
    assert first * d + p * d == (first + p) * d;
    QuotientIs(address, first + p, d);
    MaskIsPageStart(address, shift, ADDRESS_BITS);
    QuotientIs(p * d, p, d);
  }

  // ---------- the region ----------

  // What the n-th fault, counted from 0, fills its page with.
  function Letter(fault: nat): char {
    'A' + (fault % 20) as char
  }

  // How many of the first p pages are missing.
  function MissingBefore(present: seq<bool>, p: nat): nat
    requires p <= |present|
  {
    if p == 0 then 0 else MissingBefore(present, p - 1) + if present[p - 1] then 0 else 1
  }

  lemma {:induction false} MissingAll(present: seq<bool>, p: nat)
    requires p <= |present|
    ensures (forall q | 0 <= q < p :: !present[q]) ==> MissingBefore(present, p) == p
    ensures (forall q | 0 <= q < p :: present[q]) ==> MissingBefore(present, p) == 0
  {
    if p > 0 {
      MissingAll(present, p - 1);
    }
  }

  // Pages filled by consecutive faults, and pages overwritten with one character.
  function Lettered(pages: nat, fault: nat): (letters: seq<char>)
    ensures |letters| == pages
    ensures forall p: nat | p < pages :: letters[p] == Letter(fault + p)
  {
    seq(pages, p requires 0 <= p => Letter(fault + p))
  }

  function Plain(pages: nat, c: char): (letters: seq<char>)
    ensures |letters| == pages && forall p: nat | p < pages :: letters[p] == c
  {
    seq(pages, _ => c)
  }

  // The byte at address l is mem[l / pageSize, l % pageSize].
  class Region {
    const base: nat   // where mmap put the region
    const pages: nat
    const shift: nat
    const pageSize: nat
    const mem: array2<char>
    const present: array<bool>
    var faultCnt: nat

    ghost predicate Valid()
      reads this
    {
      && Placed(base, pages, shift) && pageSize == Pow2(shift) && pageSize % STEP == 0
      && mem.Length0 == pages && mem.Length1 == pageSize && present.Length == pages
    }

    constructor (base: nat, pages: nat, shift: nat)
      requires Placed(base, pages, shift)
      ensures Valid() && fresh(mem) && fresh(present) && faultCnt == 0
      ensures this.pages == pages && this.pageSize == Pow2(shift)
      ensures forall p | 0 <= p < pages :: !present[p]
    {
      PageSizeFits(shift);
      var pageSize := Pow2(shift);
      this.base, this.pages, this.shift, this.pageSize := base, pages, shift, pageSize;
      mem := new char[pages, pageSize]((_, _) => '\0');
      present := new bool[pages](_ => false);
      faultCnt := 0;
    }

    /** `madvise(MADV_DONTNEED)` on the whole region. */
    method DropAll()
      requires Valid()
      modifies present
      ensures forall p | 0 <= p < pages :: !present[p]
    {
      forall p | 0 <= p < pages {
        present[p] := false;
      }
    }

    // Every page that is present holds its letter in every byte.
    ghost predicate Holds(letters: seq<char>)
      requires Valid()
      reads this, mem, present
    {
      && |letters| == pages
      && forall p, o | 0 <= p < pages && present[p] && 0 <= o < pageSize :: mem[p, o] == letters[p]
    }

    /** The fault handler: rounds the faulting address down to the page to fill. */
    method Fault(address: nat, ghost p: nat, ghost o: nat)
      requires Valid() && p < pages && o < pageSize && address == base + p * pageSize + o
      modifies this`faultCnt, mem, present
      ensures present[..] == old(present[..])[p := true] && faultCnt == old(faultCnt) + 1
      ensures forall q, i | 0 <= q < pages && 0 <= i < pageSize ::
        mem[q, i] as int == if q == p then 'A' as int + old(faultCnt) % 20 else old(mem[q, i]) as int
    {
      hide Pow2, BitAnd, Complement;
      MaskedPage(base, p, o, pages, shift);
      var start := BitAnd(address, Complement(pageSize - 1, ADDRESS_BITS));
      var page := (start - base) / pageSize;
      forall i | 0 <= i < pageSize {
        mem[page, i] := Letter(faultCnt);
      }
      faultCnt := faultCnt + 1;
      present[page] := true;
    }

    /** An access at offset o of page p: a missing page is filled by the fault handler first. */
    method Touch(p: nat, o: nat)
      requires Valid() && p < pages && o < pageSize
      modifies this`faultCnt, mem, present
      ensures present[..] == old(present[..])[p := true]
      ensures faultCnt == old(faultCnt) + if old(present[p]) then 0 else 1
      ensures forall q, i | 0 <= q < pages && 0 <= i < pageSize ::
        mem[q, i] == if q == p && !old(present[p]) then Letter(old(faultCnt)) else old(mem[q, i])
    {
      if !present[p] {
        Fault(base + p * pageSize + o, p, o);
      }
    }

    // A pass that began with `before` present and `faults` counted has touched the first k pages.
    ghost predicate Swept(before: seq<bool>, faults: nat, k: nat)
      requires Valid()
      reads this, present
    {
      && |before| == pages && k <= pages && faultCnt == faults + MissingBefore(before, k)
      && forall q | 0 <= q < pages :: present[q] == (before[q] || q < k)
    }

    // The access at address l of a pass.
    method TouchAt(l: nat, ghost p: nat, ghost o: nat, ghost before: seq<bool>, ghost faults: nat)
        returns (page: nat, offset: nat)
      requires Valid() && Cursor(p, o, pages, pageSize) && l == Offset(p, pageSize) + o < Offset(pages, pageSize)
      requires Swept(before, faults, Touched(p, o))
      modifies this`faultCnt, mem, present
      ensures page == p < pages && offset == o && o + STEP <= pageSize
      ensures Swept(before, faults, p + 1)
      ensures forall q, i | 0 <= q < pages && 0 <= i < pageSize ::
        mem[q, i] ==
        if q == p && o == 0 && !before[p] then Letter(faults + MissingBefore(before, p)) else old(mem[q, i])
    {
      CursorStep(p, o, pages, pageSize);
      page, offset := l / pageSize, l % pageSize;
      Touch(page, offset);
    }

    // The read at address l of a pass that leaves the pages holding `after`.
    method ReadAt(l: nat, ghost p: nat, ghost o: nat, ghost before: seq<bool>, ghost faults: nat,
                  ghost after: seq<char>)
        returns (c: char)
      requires Valid() && Cursor(p, o, pages, pageSize) && l == Offset(p, pageSize) + o < Offset(pages, pageSize)
      requires Swept(before, faults, Touched(p, o)) && Holds(after)
      requires AfterFaults(before, faults, after)
      modifies this`faultCnt, mem, present
      ensures p < pages && c == after[p] && o + STEP <= pageSize
      ensures Swept(before, faults, p + 1) && Holds(after)
    {
      ghost var was := present[..];
      var page, offset := TouchAt(l, p, o, before, faults);
      forall q, i | 0 <= q < pages && present[q] && 0 <= i < pageSize
        ensures mem[q, i] == after[q]
      {
        if q != p || o > 0 || before[p] {
          assert was[q];
        }
      }
      c := mem[page, offset];
    }

    // A pass of reads that leaves the pages holding `after`.
    method Reads(ghost after: seq<char>) returns (out: seq<char>)
      requires Valid() && Holds(after) && AfterFaults(present[..], faultCnt, after)
      modifies this`faultCnt, mem, present
      ensures forall p | 0 <= p < pages :: present[p]
      ensures faultCnt == old(faultCnt) + MissingBefore(old(present[..]), pages)
      ensures Holds(after) && Samples(out, after, pageSize)
    {
      hide Pow2, SamplesSoFar, AfterFaults;
      NoSamples(after, pageSize);
      ghost var before, faults := present[..], faultCnt;
      OffsetIsProduct(pages, pageSize);
      out := [];
      var l: nat, len := 0, pages * pageSize;
      ghost var p: nat, o: nat := 0, 0;
      while l < len
        invariant Cursor(p, o, pages, pageSize) && l == Offset(p, pageSize) + o == |out| * STEP
        invariant Swept(before, faults, Touched(p, o))
        invariant Holds(after)
        invariant SamplesSoFar(out, after, pageSize)
      {
        var c := ReadAt(l, p, o, before, faults, after);
        SampleNext(out, after, pageSize, p, o);
        out := out + [c];
        l := l + STEP;
        p, o := CursorNext(p, o, pages, pageSize);
      }
      CursorEnd(p, o, pages, pageSize);
    }

    /** Passes 1 to 4, 6 and 8: reads a byte every 1024. Missing pages fault once each, in
        order; present ones are read as they are. */
    method ReadPass(ghost letters: seq<char>) returns (out: seq<char>)
      requires Valid() && Holds(letters)
      modifies this`faultCnt, mem, present
      ensures forall p | 0 <= p < pages :: present[p]
      ensures faultCnt == old(faultCnt) + MissingBefore(old(present[..]), pages)
      ensures Holds(AfterTouch(old(present[..]), old(faultCnt), letters))
      ensures Samples(out, AfterTouch(old(present[..]), old(faultCnt), letters), pageSize)
    {
      hide Pow2, MissingBefore;
      out := Reads(AfterTouch(present[..], faultCnt, letters));
    }

    /** Passes 5 and 7: overwrites 1024 bytes at a time, and reads back the first of each. */
    method WritePass(c: char) returns (out: seq<char>)
      requires Valid()
      modifies this`faultCnt, mem, present
      ensures forall p | 0 <= p < pages :: present[p]
      ensures faultCnt == old(faultCnt) + MissingBefore(old(present[..]), pages)
      ensures Holds(Plain(pages, c)) && Samples(out, Plain(pages, c), pageSize)
    {
      hide Pow2, SamplesSoFar, AfterFaults;
      NoSamples(Plain(pages, c), pageSize);
      ghost var before, faults := present[..], faultCnt;
      OffsetIsProduct(pages, pageSize);
      out := [];
      var l: nat, len := 0, pages * pageSize;
      ghost var p: nat, o: nat := 0, 0;
      while l < len
        invariant Cursor(p, o, pages, pageSize) && l == Offset(p, pageSize) + o == |out| * STEP
        invariant Swept(before, faults, Touched(p, o))
        invariant forall q, i | 0 <= q < pages && 0 <= i < pageSize && (q < p || (q == p && i < o)) :: mem[q, i] == c
        invariant SamplesSoFar(out, Plain(pages, c), pageSize)
      {
        var page, offset := TouchAt(l, p, o, before, faults);
        SampleNext(out, Plain(pages, c), pageSize, p, o);
        forall i | offset <= i < offset + STEP {
          mem[page, i] := c;
        }
        out := out + [mem[page, offset]];
        l := l + STEP;
        p, o := CursorNext(p, o, pages, pageSize);
      }
      CursorEnd(p, o, pages, pageSize);
    }
  }

  // A place in the region on a multiple of 1024, or its end.
  predicate Cursor(p: nat, o: nat, pages: nat, pageSize: nat) {
    pageSize > 0 && pageSize % STEP == 0 && p <= pages && o < pageSize && o % STEP == 0 && (p == pages ==> o == 0)
  }

  // How many pages a pass has touched when it is there.
  function Touched(p: nat, o: nat): nat {
    if o > 0 then p + 1 else p
  }

  // The address of a page, added up page by page.
  function Offset(p: nat, pageSize: nat): nat {
    if p == 0 then 0 else Offset(p - 1, pageSize) + pageSize
  }

  lemma {:induction false} OffsetIsProduct(p: nat, pageSize: nat)
    ensures Offset(p, pageSize) == p * pageSize
  {
    if p > 0 {
      OffsetIsProduct(p - 1, pageSize);
    }
  }

  lemma {:induction false} CursorStep(p: nat, o: nat, pages: nat, pageSize: nat)
    requires Cursor(p, o, pages, pageSize) && Offset(p, pageSize) + o < Offset(pages, pageSize)
    ensures p < pages && o + STEP <= pageSize
    ensures (Offset(p, pageSize) + o) / pageSize == p && (Offset(p, pageSize) + o) % pageSize == o
  {
    OffsetIsProduct(p, pageSize);
    QuotientIs(p * pageSize + o, p, pageSize);
    Remainder(p * pageSize + o, pageSize);
  }

  lemma CursorNext(p: nat, o: nat, pages: nat, pageSize: nat) returns (p': nat, o': nat)
    requires Cursor(p, o, pages, pageSize) && p < pages && o + STEP <= pageSize
    ensures Cursor(p', o', pages, pageSize) && Offset(p', pageSize) + o' == Offset(p, pageSize) + o + STEP
    ensures Touched(p', o') == p + 1
    ensures (p' == p && o' == o + STEP) || (p' == p + 1 && o' == 0 && o + STEP == pageSize)
  {
    p', o' := if o + STEP < pageSize then p else p + 1, if o + STEP < pageSize then o + STEP else 0;
  }

  lemma CursorEnd(p: nat, o: nat, pages: nat, pageSize: nat)
    requires Cursor(p, o, pages, pageSize) && Offset(p, pageSize) + o >= Offset(pages, pageSize)
    ensures p == pages && o == 0
  {
    if p < pages {
      OffsetIsProduct(p, pageSize);
      OffsetIsProduct(pages, pageSize);
      MulMono(p + 1, pages, pageSize);
    }
  }

  // What the pages hold once all have been touched in order.
  function AfterTouch(before: seq<bool>, faults: nat, letters: seq<char>): (after: seq<char>)
    requires |before| == |letters|
    ensures |after| == |letters|
  {
    seq(|letters|, p requires 0 <= p < |letters| =>
      if before[p] then letters[p] else Letter(faults + MissingBefore(before, p)))
  }

  // `after` has the letter of its fault on every page that was missing.
  predicate AfterFaults(before: seq<bool>, faults: nat, after: seq<char>) {
    && |before| == |after|
    && forall p: nat | p < |before| && !before[p] :: after[p] == Letter(faults + MissingBefore(before, p))
  }

  // Characters read every 1024 bytes, each its page's.
  predicate SamplesSoFar(out: seq<char>, letters: seq<char>, pageSize: nat)
    requires pageSize > 0
  {
    forall c | 0 <= c < |out| :: c * STEP / pageSize < |letters| && out[c] == letters[c * STEP / pageSize]
  }

  lemma NoSamples(letters: seq<char>, pageSize: nat)
    requires pageSize > 0
    ensures SamplesSoFar([], letters, pageSize)
  {
  }

  predicate Samples(out: seq<char>, letters: seq<char>, pageSize: nat)
    requires pageSize > 0
  {
    |out| * STEP == |letters| * pageSize && SamplesSoFar(out, letters, pageSize)
  }

  lemma SampleNext(out: seq<char>, letters: seq<char>, pageSize: nat, p: nat, o: nat)
    requires Cursor(p, o, |letters|, pageSize) && p < |letters| && |out| * STEP == Offset(p, pageSize) + o
    requires SamplesSoFar(out, letters, pageSize)
    ensures SamplesSoFar(out + [letters[p]], letters, pageSize)
  {
    OffsetIsProduct(p, pageSize);
    QuotientIs(p * pageSize + o, p, pageSize);
  }

  lemma LetteredSamples(out: seq<char>, pages: nat, fault: nat, pageSize: nat)
    requires pageSize > 0 && Samples(out, Lettered(pages, fault), pageSize)
    ensures |out| * 1024 == pages * pageSize
    ensures forall c | 0 <= c < |out| :: out[c] as int == 'A' as int + (fault + c * 1024 / pageSize) % 20
  {
  }

  lemma PlainSamples(out: seq<char>, pages: nat, c: char, pageSize: nat)
    requires pageSize > 0 && Samples(out, Plain(pages, c), pageSize)
    ensures |out| * 1024 == pages * pageSize
    ensures forall i | 0 <= i < |out| :: out[i] == c
  {
  }

  /** The whole demonstration, for any number of pages and any power of two of at least 1024
      as the page size: what each of the eight passes prints at every address, and three
      faults a page in all. */
  method Demonstrate(base: nat, pages: nat, k: nat) returns (out: seq<seq<char>>, faults: nat)
    requires Placed(base, pages, k)
    ensures |out| == 8 && faults == 3 * pages
    ensures forall pass | 0 <= pass < 8 :: |out[pass]| * 1024 == pages * Pow2(k)
    ensures out[0] == out[1] && out[2] == out[3] && out[4] == out[5] && out[6] == out[7]
    ensures forall c | 0 <= c < |out[0]| :: out[0][c] as int == 'A' as int + c * 1024 / Pow2(k) % 20
    ensures forall c | 0 <= c < |out[2]| :: out[2][c] as int == 'A' as int + (pages + c * 1024 / Pow2(k)) % 20
    ensures forall c | 0 <= c < |out[4]| :: out[4][c] == '@'
    ensures forall c | 0 <= c < |out[6]| :: out[6][c] == '^'
  {
    hide Pow2;
    var r := new Region(base, pages, k);
    var o1, o2 := TwoReads(r);
    r.DropAll();
    var o3, o4 := TwoReads(r);
    r.DropAll();
    MissingAll(r.present[..], pages);
    var o5, o6 := WriteAndRead(r, '@', pages);
    var o7, o8 := WriteAndRead(r, '^', 0);
    LetteredSamples(o1, pages, 0, r.pageSize);
    LetteredSamples(o3, pages, pages, r.pageSize);
    PlainSamples(o5, pages, '@', r.pageSize);
    PlainSamples(o7, pages, '^', r.pageSize);
    out := [o1, o2, o3, o4, o5, o6, o7, o8];
    faults := r.faultCnt;
  }

  lemma TwiceFits(d: nat)
    requires d % STEP == 0
    ensures 2 * d % STEP == 0
  {
    assert 2 * d == 2 * (d / STEP) * STEP;
  }

  lemma {:induction false} PageSizeFits(k: nat)
    requires k >= 10
    ensures Pow2(k) % STEP == 0
  {
    if k == 10 {
      PowTen();
    } else {
      PageSizeFits(k - 1);
      TwiceFits(Pow2(k - 1));
    }
  }

  lemma MissingPrefixes(before: seq<bool>)
    requires forall p | 0 <= p < |before| :: !before[p]
    ensures forall p: nat | p <= |before| :: MissingBefore(before, p) == p
  {
    forall p: nat | p <= |before|
      ensures MissingBefore(before, p) == p
    {
      MissingAll(before, p);
    }
  }

  lemma MissingLetters(before: seq<bool>, faults: nat, letters: seq<char>)
    requires |before| == |letters| && forall p | 0 <= p < |before| :: !before[p]
    ensures AfterTouch(before, faults, letters) == Lettered(|letters|, faults)
    ensures MissingBefore(before, |before|) == |before|
  {
    MissingPrefixes(before);
  }

  lemma PresentLetters(before: seq<bool>, faults: nat, letters: seq<char>)
    requires |before| == |letters| && forall p | 0 <= p < |before| :: before[p]
    ensures AfterTouch(before, faults, letters) == letters
    ensures MissingBefore(before, |before|) == 0
  {
    MissingAll(before, |before|);
  }

  // A pass over missing pages and one over the same pages, now present.
  method TwoReads(r: Region) returns (first: seq<char>, second: seq<char>)
    requires r.Valid() && forall p | 0 <= p < r.pages :: !r.present[p]
    modifies r`faultCnt, r.mem, r.present
    ensures r.faultCnt == old(r.faultCnt) + r.pages
    ensures first == second && Samples(first, Lettered(r.pages, old(r.faultCnt)), r.pageSize)
  {
    ghost var faults := r.faultCnt;
    MissingLetters(r.present[..], faults, Plain(r.pages, ' '));
    first := r.ReadPass(Plain(r.pages, ' '));
    PresentLetters(r.present[..], r.faultCnt, Lettered(r.pages, faults));
    second := r.ReadPass(Lettered(r.pages, faults));
    SamplesUnique(first, second, Lettered(r.pages, faults), r.pageSize);
  }

  // A writing pass, `missing` pages of which fault, and a pass that reads it back.
  method WriteAndRead(r: Region, c: char, ghost missing: nat) returns (first: seq<char>, second: seq<char>)
    requires r.Valid() && MissingBefore(r.present[..], r.pages) == missing
    modifies r`faultCnt, r.mem, r.present
    ensures MissingBefore(r.present[..], r.pages) == 0
    ensures r.faultCnt == old(r.faultCnt) + missing
    ensures first == second && Samples(first, Plain(r.pages, c), r.pageSize)
  {
    first := r.WritePass(c);
    PresentLetters(r.present[..], r.faultCnt, Plain(r.pages, c));
    second := r.ReadPass(Plain(r.pages, c));
    PresentLetters(r.present[..], r.faultCnt, Plain(r.pages, c));
    SamplesUnique(first, second, Plain(r.pages, c), r.pageSize);
  }

  lemma SamplesUnique(a: seq<char>, b: seq<char>, letters: seq<char>, pageSize: nat)
    requires pageSize > 0 && Samples(a, letters, pageSize) && Samples(b, letters, pageSize)
    ensures a == b
  {
  }
}
