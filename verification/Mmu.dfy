/** kernel/arch/i386/mmu.c: the frame bitmap, and fork's copy of an address space. */
module Mmu {
  import opened Bits
  import opened Bytes

  const ENTRIES: nat := 1024
  const PAGE_SIZE: nat := 0x1000
  /** The tables of the stack, copied for every process. */
  const STACK_FIRST: nat := 635
  const STACK_LAST: nat := 641

  type Data = seq<byte>

  datatype Page = Page(present: bool, rw: bool, user: bool, accessed: bool, dirty: bool, frame: nat)

  const NO_PAGE := Page(false, false, false, false, false, 0)

  class PageTable {
    var pages: seq<Page>
    /** The frame the table itself lives in. */
    const frame: nat

    constructor (f: nat)
      ensures frame == f && pages == seq(ENTRIES, _ => NO_PAGE)
    {
      frame, pages := f, seq(ENTRIES, _ => NO_PAGE);
    }
  }

  class PageDirectory {
    var tables: seq<PageTable?>
    var physicalTables: seq<nat>
    /** The frames the directory itself lives in. */
    const frames: seq<nat>

    predicate Sized()
      reads this
    {
      |tables| == ENTRIES == |physicalTables|
    }

    /** A slot without a table has no physical table either. */
    ghost predicate Matching()
      reads this
    {
      Sized() && forall i :: 0 <= i < ENTRIES && tables[i] == null ==> physicalTables[i] == 0
    }

    constructor (f: seq<nat>)
      ensures Sized() && frames == f && tables == seq(ENTRIES, _ => null) && physicalTables == seq(ENTRIES, _ => 0)
    {
      frames, tables, physicalTables := f, seq(ENTRIES, _ => null), seq(ENTRIES, _ => 0);
    }
  }

  // Frame bitmaps.

  predicate IsUsed(words: seq<nat>, f: nat) {
    BitIn(words, f / 32, f % 32)
  }

  /** All frames from word a up to frame b are in use. */
  ghost predicate FullBetween(words: seq<nat>, a: nat, b: nat) {
    forall f :: 32 * a <= f < b ==> IsUsed(words, f)
  }

  lemma FullWord(words: seq<nat>, a: nat, i: nat)
    requires FullBetween(words, a, 32 * i) && i < |words| && words[i] == 0xFFFF_FFFF
    ensures FullBetween(words, a, 32 * i + 32)
  {
    hide Ones, Bit;
    FullWords();
    forall f | 32 * i <= f < 32 * i + 32 ensures IsUsed(words, f) {
      OnesBit(32, f % 32);
    }
  }

  class FrameMap {
    /** tmp_small_frames. */
    var words: seq<nat>
    var startFrameSearch: nat

    /** The frames marked as used. */
    ghost function Used(): set<nat>
      reads this
    {
      set f: nat | f < 32 * |words| && IsUsed(words, f)
    }

    constructor (w: seq<nat>)
      ensures words == w && startFrameSearch == 1
    {
      words, startFrameSearch := w, 1;
    }

    /** get_free_frames for one frame: the lowest unused one, from the start of the search on. */
    method GetFreeFrame() returns (ok: bool, frame: nat)
      modifies `startFrameSearch
      ensures startFrameSearch == old(startFrameSearch)
      ensures ok ==> 32 * startFrameSearch <= frame < 32 * |words| && frame !in Used()
      ensures ok ==> FullBetween(words, startFrameSearch, frame)
      ensures !ok ==> frame == 0 && FullBetween(words, startFrameSearch, 32 * |words|)
    {
      var i := startFrameSearch;
      while i < |words|
        invariant startFrameSearch == old(startFrameSearch) <= i && FullBetween(words, startFrameSearch, 32 * i)
      {
        if words[i] == 0xFFFF_FFFF {
          FullWord(words, startFrameSearch, i);
        } else {
          var c := 0;
          while c < 32
            invariant 0 <= c <= 32 && startFrameSearch == old(startFrameSearch)
            invariant FullBetween(words, startFrameSearch, 32 * i + c)
          {
            if !Bit(words[i], c) {
              startFrameSearch := Min(startFrameSearch, i);
              return true, 32 * i + c;
            }
            assert IsUsed(words, 32 * i + c);
            c := c + 1;
          }
        }
        i := i + 1;
      }
      return false, 0;
    }

    /** write_to_frame: marks or clears one frame; marking a used frame is refused. */
    method WriteToFrame(address: nat, on: bool) returns (ok: bool)
      modifies this
      ensures |words| == |old(words)|
      ensures
        var frame := address / PAGE_SIZE;
        && ok == (frame / 32 < |words| && (on ==> frame !in old(Used())))
        && Used() == (if !ok then old(Used()) else if on then old(Used()) + {frame} else old(Used()) - {frame})
    {
      var frame := address / PAGE_SIZE;
      if frame / 32 >= |words| { return false; }
      ghost var before := words;
      if on {
        if Bit(words[frame / 32], frame % 32) { return false; }
        words := words[frame / 32 := SetBit(words[frame / 32], frame % 32)];
        forall g: nat ensures IsUsed(words, g) == (IsUsed(before, g) || g == frame) {
          SetBitIn(before, frame / 32, frame % 32, g / 32, g % 32);
        }
      } else {
        startFrameSearch := Min(startFrameSearch, frame / 32);
        words := words[frame / 32 := ClearBit(words[frame / 32], frame % 32)];
        forall g: nat ensures IsUsed(words, g) == (IsUsed(before, g) && g != frame) {
          ClearBitIn(before, frame / 32, frame % 32, g / 32, g % 32);
        }
      }
      return true;
    }

    /** get_free_frames followed by write_to_frame, as its callers do. */
    method TakeFrame() returns (ok: bool, frame: nat)
      modifies this
      ensures |words| == |old(words)|
      ensures ok ==> frame !in old(Used()) && frame < 32 * |words| && Used() == old(Used()) + {frame}
      ensures !ok ==> Used() == old(Used())
    {
      ok, frame := GetFreeFrame();
      if ok {
        var done := WriteToFrame(frame * PAGE_SIZE, true);
      }
    }

    method FreeFrame(frame: nat)
      modifies this
      ensures |words| == |old(words)| && Used() == old(Used()) - {frame}
    {
      var done := WriteToFrame(frame * PAGE_SIZE, false);
    }
  }

  // Copying a page table.

  /** Page c of the copy: the flags of the original, another frame. `at` says which page a new frame serves. */
  ghost predicate PageTaken(src: Page, dst: Page, at: map<nat, nat>, c: nat) {
    if src.present then dst == src.(frame := dst.frame) && dst.frame in at && at[dst.frame] == c else !dst.present
  }

  ghost predicate PagesTaken(src: seq<Page>, dst: seq<Page>, n: nat, at: map<nat, nat>) {
    && |src| == |dst| == ENTRIES
    && (forall c :: 0 <= c < n <= ENTRIES ==> PageTaken(src[c], dst[c], at, c))
    && (forall c :: n <= c < ENTRIES ==> dst[c] == NO_PAGE)
    && (forall f :: f in at ==> at[f] < n && at[f] < ENTRIES && dst[at[f]].present && dst[at[f]].frame == f)
  }

  /** The frames of the present pages are marked as used. */
  ghost predicate Backed(pages: seq<Page>, used: set<nat>) {
    |pages| == ENTRIES && forall c :: 0 <= c < ENTRIES && pages[c].present ==> pages[c].frame in used
  }

  /** The new frames of the first n pages hold what the old ones held; no other frame has changed. */
  ghost predicate DataCopied(src: seq<Page>, dst: seq<Page>, n: nat, at: map<nat, nat>, mem: seq<Data>,
          mem': seq<Data>) {
    && |src| == |dst| == ENTRIES && |mem'| == |mem|
    && (forall c :: 0 <= c < n <= ENTRIES && src[c].present ==>
                      src[c].frame < |mem| && dst[c].frame < |mem| && mem'[dst[c].frame] == mem[src[c].frame])
    && (forall f :: 0 <= f < |mem| && f !in at ==> mem'[f] == mem[f])
  }

  /** New frames for exactly the present pages before page n, one each. */
  ghost predicate PagesReached(src: seq<Page>, at: map<nat, nat>, n: nat) {
    && n <= |src| == ENTRIES && at.Values == (set c | 0 <= c < n && src[c].present)
    && forall f, g :: f in at && g in at && at[f] == at[g] ==> f == g
  }

  lemma TakenReached(src: seq<Page>, dst: seq<Page>, n: nat, at: map<nat, nat>)
    requires PagesTaken(src, dst, n, at) && n <= ENTRIES
    ensures PagesReached(src, at, n)
  {
    forall c | 0 <= c < n && src[c].present ensures c in at.Values {
      assert PageTaken(src[c], dst[c], at, c);
      assert at[dst[c].frame] == c;
    }
    forall f | f in at ensures src[at[f]].present { assert PageTaken(src[at[f]], dst[at[f]], at, at[f]); }
  }

  lemma TakenMore(src: seq<Page>, dst: seq<Page>, n: nat, at: map<nat, nat>, f: nat)
    requires PagesTaken(src, dst, n, at) && n < ENTRIES && (src[n].present ==> f !in at)
    ensures src[n].present ==> PagesTaken(src, dst[n := src[n].(frame := f)], n + 1, at[f := n])
    ensures !src[n].present ==> PagesTaken(src, dst, n + 1, at)
  {
    var at', dst' := at[f := n], dst[n := src[n].(frame := f)];
    if src[n].present {
      forall c | 0 <= c < n + 1 ensures PageTaken(src[c], dst'[c], at', c) {
        if c < n { assert PageTaken(src[c], dst[c], at, c); }
      }
    }
  }

  lemma CopiedMore(src: seq<Page>, dst: seq<Page>, n: nat, at: map<nat, nat>, mem: seq<Data>, mem': seq<Data>)
    requires PagesTaken(src, dst, ENTRIES, at) && n < ENTRIES && DataCopied(src, dst, n, at, mem, mem')
    requires src[n].present ==> src[n].frame < |mem| && dst[n].frame < |mem| && src[n].frame !in at
    ensures src[n].present ==> DataCopied(src, dst, n + 1, at, mem, mem'[dst[n].frame := mem'[src[n].frame]])
    ensures !src[n].present ==> DataCopied(src, dst, n + 1, at, mem, mem')
  {
    if src[n].present {
      assert PageTaken(src[n], dst[n], at, n);
      forall c | 0 <= c < n && src[c].present ensures dst[c].frame != dst[n].frame {
        assert PageTaken(src[c], dst[c], at, c);
      }
    }
  }

  /** The frames mmu_free_pagedirectory gives back for the pages of a table: frame 0 stands for none. */
  ghost function PageFrames(pages: seq<Page>): set<nat> {
    set c | 0 <= c < |pages| && pages[c].present && pages[c].frame != 0 :: pages[c].frame
  }

  lemma PageFramesMore(pages: seq<Page>, n: nat)
    requires n < |pages|
    ensures PageFrames(pages[..n + 1]) == PageFrames(pages[..n])
            + if pages[n].present && pages[n].frame != 0 then {pages[n].frame} else {}
  {
    var a, b := pages[..n], pages[..n + 1];
    forall f ensures f in PageFrames(b) <==> f in PageFrames(a) || (pages[n].present && f == pages[n].frame != 0) {
      if f in PageFrames(a) {
        var c :| 0 <= c < n && a[c].present && a[c].frame == f != 0;
        assert b[c] == a[c];
      }
      if pages[n].present && f == pages[n].frame != 0 { assert b[n] == pages[n]; }
      if f in PageFrames(b) {
        var c :| 0 <= c < n + 1 && b[c].present && b[c].frame == f != 0;
        if c < n { assert a[c] == b[c]; }
      }
    }
  }

  /** The pages of a copy have exactly the new frames. */
  lemma TakenFrames(src: seq<Page>, dst: seq<Page>, at: map<nat, nat>)
    requires PagesTaken(src, dst, ENTRIES, at)
    ensures PageFrames(dst) == at.Keys - {0}
  {
    forall f ensures f in PageFrames(dst) <==> f in at.Keys - {0} {
      if f in PageFrames(dst) {
        var c :| 0 <= c < |dst| && dst[c].present && dst[c].frame == f != 0;
        assert PageTaken(src[c], dst[c], at, c);
      }
    }
  }

  ghost function Members(s: seq<nat>): set<nat> {
    set f | f in s
  }

  /** The frames of the first n tables and of their pages, the kernel's tables left out. */
  ghost function OwnFrames(tables: seq<PageTable?>, kernel: seq<PageTable?>, n: nat): set<nat>
    requires n <= |tables| && n <= |kernel|
    reads tables
  {
    if n == 0 then {}
    else if tables[n - 1] == null || tables[n - 1] == kernel[n - 1] then OwnFrames(tables, kernel, n - 1)
    else OwnFrames(tables, kernel, n - 1) + PageFrames(tables[n - 1].pages) + {tables[n - 1].frame}
  }

  /** What is in use while a directory is made: what was, the directory's own frames, those of its tables and
      their pages, and frame 0 if a page has it. */
  ghost predicate Booked(used: set<nat>, used0: set<nat>, got: set<nat>, own: set<nat>, serving: set<nat>) {
    && used == used0 + got + own + serving * {0} && used0 !! got && used0 !! own
    && (0 in serving ==> 0 !in used0 && 0 !in got && 0 !in own)
  }

  lemma BookedMore(used: set<nat>, used0: set<nat>, got: set<nat>, own: set<nat>, serving: set<nat>, more: set<nat>,
          f: nat)
    requires Booked(used, used0, got, own, serving) && more !! used && f !in used + more
    ensures Booked(used + more + {f}, used0, got, own + (more - {0}) + {f}, serving + more)
  {
  }

  lemma BookedFreed(used: set<nat>, used0: set<nat>, got: set<nat>, own: set<nat>, serving: set<nat>, more: set<nat>)
    requires Booked(used, used0, got, own, serving) && more !! used
    ensures used + more - own - got == used0 + more + serving * {0}
  {
  }

  /** Empty slots have no frames. */
  lemma {:induction false} OwnRest(tables: seq<PageTable?>, kernel: seq<PageTable?>, i: nat, n: nat)
    requires i <= n <= |tables| && n <= |kernel| && forall k :: i <= k < n ==> tables[k] == null
    ensures OwnFrames(tables, kernel, n) == OwnFrames(tables, kernel, i)
    decreases n
  {
    if i < n { OwnRest(tables, kernel, i, n - 1); }
  }

  lemma {:induction false} OwnOutside(tables: seq<PageTable?>, kernel: seq<PageTable?>, n: nat, keep: set<nat>)
    requires n <= |tables| && n <= |kernel|
    requires forall i :: 0 <= i < n && tables[i] != null && tables[i] != kernel[i] ==> TableOutside(tables[i], keep)
    ensures OwnFrames(tables, kernel, n) !! keep
  {
    if n > 0 { OwnOutside(tables, kernel, n - 1, keep); }
  }

  /** The frames depend on the first n tables only. */
  lemma {:induction false} OwnPrefix(a: seq<PageTable?>, b: seq<PageTable?>, kernel: seq<PageTable?>, n: nat)
    requires n <= |a| && n <= |b| && n <= |kernel| && forall i :: 0 <= i < n ==> a[i] == b[i]
    ensures OwnFrames(a, kernel, n) == OwnFrames(b, kernel, n)
  {
    if n > 0 { OwnPrefix(a, b, kernel, n - 1); }
  }

  class Memory {
    const frames: FrameMap
    /** What the physical frames hold. */
    var mem: seq<Data>

    ghost predicate Valid()
      reads this, frames
    {
      |mem| == 32 * |frames.words|
    }

    constructor (f: FrameMap, m: seq<Data>)
      ensures frames == f && mem == m
    {
      frames, mem := f, m;
    }

    /** The first loop of clone_table: a new frame for every present page. */
    method ClonePages(src: PageTable, t: PageTable) returns (ok: bool, ghost at: map<nat, nat>, ghost stop: nat)
      requires Valid() && |src.pages| == ENTRIES && t.pages == seq(ENTRIES, _ => NO_PAGE) && src != t
      modifies frames, t
      ensures Valid() && frames.Used() == old(frames.Used()) + at.Keys && at.Keys !! old(frames.Used())
      ensures forall f :: f in at ==> f < |mem|
      ensures ok ==> PagesTaken(src.pages, t.pages, ENTRIES, at)
      ensures !ok ==> stop < ENTRIES && src.pages[stop].present && PagesTaken(src.pages, t.pages, stop, at)
    {
      at, stop := map[], ENTRIES;
      for i := 0 to ENTRIES
        invariant Valid() && src.pages == old(src.pages) && frames.Used() == old(frames.Used()) + at.Keys
        invariant at.Keys !! old(frames.Used()) && PagesTaken(src.pages, t.pages, i, at)
        invariant forall f :: f in at ==> f < |mem|
      {
        var frame := 0;
        if src.pages[i].present {
          ok, frame := frames.TakeFrame();
          if !ok {
            stop := i;
            return;
          }
        }
        TakenMore(src.pages, t.pages, i, at, frame);
        if src.pages[i].present {
          t.pages := t.pages[i := src.pages[i].(frame := frame)];
          at := at[frame := i];
        }
      }
      ok := true;
    }

    /** The copy loop of clone_table: through table slot `alias` of the directory, page by page. */
    method CopyData(dir: PageDirectory, alias: nat, srcIndex: nat, ghost at: map<nat, nat>)
      requires Valid() && dir.Sized() && alias < ENTRIES && srcIndex < ENTRIES && alias != srcIndex
      requires dir.tables[alias] != null && dir.tables[srcIndex] != null
      requires PagesTaken(dir.tables[srcIndex].pages, dir.tables[alias].pages, ENTRIES, at)
      requires Backed(dir.tables[srcIndex].pages, frames.Used() - at.Keys) && forall f :: f in at ==> f < |mem|
      modifies `mem
      ensures Valid() && DataCopied(dir.tables[srcIndex].pages, dir.tables[alias].pages, ENTRIES, at, old(mem), mem)
    {
      for c := 0 to ENTRIES
        invariant Valid() && DataCopied(dir.tables[srcIndex].pages, dir.tables[alias].pages, c, at, old(mem), mem)
      {
        var from, to := dir.tables[srcIndex].pages[c], dir.tables[alias].pages[c];
        assert PageTaken(from, to, at, c);
        CopiedMore(dir.tables[srcIndex].pages, dir.tables[alias].pages, c, at, old(mem), mem);
        if from.present {
          mem := mem[to.frame := mem[from.frame]];
        }
      }
    }

    /** The table as clone_table finds and leaves it: a copy of every present page in a frame of its own. */
    ghost predicate TableCopied(src: seq<Page>, t: PageTable, at: map<nat, nat>, mem0: seq<Data>)
      reads this, t
    {
      PagesTaken(src, t.pages, ENTRIES, at) && DataCopied(src, t.pages, ENTRIES, at, mem0, mem)
    }

    /** clone_table. The directory lends a free table slot for the copy and has it back at the end. A failure
        leaks the frames of the pages it had come to. */
    method CloneTable(srcIndex: nat, dir: PageDirectory)
      returns (t: PageTable?, ghost at: map<nat, nat>, ghost stop: nat)
      requires Valid() && dir.Matching() && srcIndex < ENTRIES && dir.tables[srcIndex] != null
      requires Backed(dir.tables[srcIndex].pages, frames.Used())
      requires exists i :: 0 <= i < ENTRIES && dir.tables[i] == null
      modifies this, frames, dir`tables, dir`physicalTables
      ensures Valid() && dir.tables == old(dir.tables) && dir.physicalTables == old(dir.physicalTables)
      ensures old(frames.Used()) <= frames.Used() && |mem| == |old(mem)|
      ensures forall f :: f in old(frames.Used()) && f < |mem| ==> mem[f] == old(mem[f])
      ensures at.Keys !! old(frames.Used()) && (t == null ==> frames.Used() == old(frames.Used()) + at.Keys)
      ensures t == null ==> PagesReached(dir.tables[srcIndex].pages, at, stop)
      ensures t != null ==> fresh(t) && TableCopied(dir.tables[srcIndex].pages, t, at, old(mem))
      ensures t != null ==> frames.Used() == old(frames.Used()) + at.Keys + {t.frame}
      ensures t != null ==> t.frame !in old(frames.Used()) + at.Keys && forall f :: f in at ==> f < |mem|
    {
      at, stop := map[], 0;
      var ok, own := frames.TakeFrame();
      if !ok { return null, at, stop; }
      t := new PageTable(own);
      var src := dir.tables[srcIndex];
      ok, at, stop := ClonePages(src, t);
      if !ok {
        frames.FreeFrame(own);
        TakenReached(src.pages, t.pages, stop, at);
        return null, at, stop;
      }
      for i := 0 to ENTRIES
        invariant dir.Sized() && dir.tables == old(dir.tables) && dir.physicalTables == old(dir.physicalTables)
        invariant forall k :: 0 <= k < i ==> dir.tables[k] != null
      {
        if dir.tables[i] == null {
          dir.tables := dir.tables[i := t];
          dir.physicalTables := dir.physicalTables[i := own * PAGE_SIZE + 3];
          CopyData(dir, i, srcIndex, at);
          dir.tables := dir.tables[i := null];
          dir.physicalTables := dir.physicalTables[i := 0];
          assert dir.tables == old(dir.tables) && dir.physicalTables == old(dir.physicalTables);
          return;
        }
      }
      assert false;
    }

    /** mmu_free_pagedirectory: exactly the frames of the directory and of the tables that are not the
        kernel's are free again. */
    method FreePageDirectory(pd: PageDirectory, kernel: PageDirectory)
      requires Valid() && pd.Sized() && kernel.Sized() && pd != kernel
      requires forall i :: 0 <= i < ENTRIES && pd.tables[i] != null && pd.tables[i] != kernel.tables[i] ==>
               |pd.tables[i].pages| == ENTRIES
      modifies frames, pd`tables
      ensures Valid() && frames.Used()
              == old(frames.Used()) - old(OwnFrames(pd.tables, kernel.tables, ENTRIES)) - Members(pd.frames)
    {
      ghost var own := OwnFrames(pd.tables, kernel.tables, ENTRIES);
      for i := 0 to ENTRIES
        invariant Valid() && pd.Sized() && kernel.Sized() && kernel.tables == old(kernel.tables)
        invariant forall k :: i <= k < ENTRIES ==> pd.tables[k] == old(pd.tables)[k]
        invariant frames.Used() == old(frames.Used()) - old(OwnFrames(pd.tables, kernel.tables, i))
      {
        if pd.tables[i] != null && pd.tables[i] != kernel.tables[i] {
          FreeTable(pd.tables[i]);
          pd.tables := pd.tables[i := null];
        }
      }
      for k := 0 to |pd.frames|
        invariant Valid() && frames.Used() == old(frames.Used()) - own - Members(pd.frames[..k])
      {
        frames.FreeFrame(pd.frames[k]);
        assert pd.frames[..k + 1] == pd.frames[..k] + [pd.frames[k]];
      }
      assert pd.frames[..|pd.frames|] == pd.frames;
    }

    /** The frames of a table's pages, then the table's own. */
    method FreeTable(t: PageTable)
      requires Valid() && |t.pages| == ENTRIES
      modifies frames
      ensures Valid() && frames.Used() == old(frames.Used()) - PageFrames(t.pages) - {t.frame}
    {
      for j := 0 to ENTRIES
        invariant Valid() && frames.Used() == old(frames.Used()) - PageFrames(t.pages[..j])
      {
        var page := t.pages[j];
        PageFramesMore(t.pages, j);
        if page.present && page.frame != 0 {
          frames.FreeFrame(page.frame);
        }
      }
      assert t.pages[..ENTRIES] == t.pages;
      frames.FreeFrame(t.frame);
    }

    /** Frames for the n pages of a kernel allocation; all of them or none. */
    method KmallocAlign(n: nat) returns (ok: bool, got: seq<nat>)
      requires Valid()
      modifies frames
      ensures Valid() && Members(got) !! old(frames.Used()) && frames.Used() == old(frames.Used()) + Members(got)
      ensures |got| == if ok then n else 0
    {
      got := [];
      for i := 0 to n
        invariant Valid() && |got| == i
        invariant Members(got) !! old(frames.Used()) && frames.Used() == old(frames.Used()) + Members(got)
      {
        var frame;
        ok, frame := frames.TakeFrame();
        if !ok {
          for k := 0 to |got|
            invariant Valid() && frames.Used() == old(frames.Used()) + (Members(got) - Members(got[..k]))
          {
            frames.FreeFrame(got[k]);
            assert got[..k + 1] == got[..k] + [got[k]];
          }
          assert got[..|got|] == got;
          return false, [];
        }
        got := got + [frame];
      }
      ok := true;
    }

    /** Slot i of the child: a copy of the parent's table, or the kernel's table itself. */
    ghost predicate SlotForked(original: PageDirectory, kernel: PageDirectory, child: PageDirectory, i: nat,
            serves: map<nat, (nat, nat)>, used0: set<nat>, mem0: seq<Data>)
      requires original.Sized() && kernel.Sized() && child.Sized() && i < ENTRIES
      reads this, original, kernel, child, original.tables, child.tables
    {
      if Copies(original, kernel, i) then
        && child.tables[i] != null && original.tables[i] != null
        && child.tables[i] != kernel.tables[i] && child.tables[i] != original.tables[i]
           && child.tables[i].frame !in used0
        && child.physicalTables[i] == child.tables[i].frame * PAGE_SIZE + original.physicalTables[i] % PAGE_SIZE
        && TableForked(original.tables[i].pages, child.tables[i].pages, i, serves, mem0, mem)
      else
        && child.tables[i] == kernel.tables[i]
        && child.physicalTables[i] ==
           if original.tables[i] == null == kernel.tables[i] then 0 else kernel.physicalTables[i]
    }

    /** What clone_directory has when it comes to slot n: the slots before are done, their copies are the
        child's own, and nothing in use at the start has changed. */
    ghost predicate Forking(original: PageDirectory, kernel: PageDirectory, child: PageDirectory, n: nat,
            serves: map<nat, (nat, nat)>, used0: set<nat>, mem0: seq<Data>)
      requires original.Sized() && kernel.Sized() && child.Sized() && n <= ENTRIES
      reads this, frames, original, kernel, child, original.tables, child.tables
    {
      && Valid() && |mem| == |mem0| && used0 <= frames.Used() && serves.Keys <= frames.Used() && serves.Keys !! used0
      && (forall f :: f in used0 && f < |mem| ==> mem[f] == mem0[f])
      && (forall i :: 0 <= i < n ==> SlotForked(original, kernel, child, i, serves, used0, mem0))
      && (forall i :: n <= i < ENTRIES ==> child.tables[i] == null)
    }

    /** What fork promises of the 4 MiB of virtual memory in slot i. Below the shared kernel part, which starts at
        slot 642, a table the parent has for itself, and any table of the stack, slots 635 to 641, is a table of the
        child's own: every page as the parent's, its contents in a frame that nobody used. Everything else is the
        kernel's. */
    ghost predicate Inherited(original: PageDirectory, kernel: PageDirectory, child: PageDirectory, i: nat,
            used0: set<nat>, mem0: seq<Data>)
      requires original.Sized() && kernel.Sized() && child.Sized() && i < 1024
      reads this, original, kernel, child, original.tables, child.tables
    {
      var from, to, shared := original.tables[i], child.tables[i], kernel.tables[i];
      if i <= 641 && from != null && (635 <= i || from != shared) then
        && to != null && to != from && to != shared && to.frame !in used0
        && child.physicalTables[i] / 4096 == to.frame
           && child.physicalTables[i] % 4096 == original.physicalTables[i] % 4096
        && |from.pages| == |to.pages| == 1024
        && forall c :: 0 <= c < 1024 ==> PageInherited(from.pages[c], to.pages[c], used0, mem0, mem)
      else
        to == shared && child.physicalTables[i] == if from == null == shared then 0 else kernel.physicalTables[i]
    }

    lemma ForkInherits(original: PageDirectory, kernel: PageDirectory, child: PageDirectory, i: nat,
            serves: map<nat, (nat, nat)>, used0: set<nat>, mem0: seq<Data>)
      requires original.Sized() && kernel.Sized() && child.Sized() && i < 1024 && serves.Keys !! used0
      requires i <= 641 && kernel.tables[i] != null ==> original.tables[i] != null
      requires SlotForked(original, kernel, child, i, serves, used0, mem0)
      ensures Inherited(original, kernel, child, i, used0, mem0)
    {
      if Copies(original, kernel, i) {
        var from, to := original.tables[i], child.tables[i];
        forall c | 0 <= c < 1024 ensures PageInherited(from.pages[c], to.pages[c], used0, mem0, mem) {
          assert PageForked(from.pages[c], to.pages[c], i, c, serves, mem0, mem);
        }
      }
    }

    /** One turn of the loop of clone_directory that copies. */
    method CloneSlot(original: PageDirectory, kernel: PageDirectory, child: PageDirectory, i: nat,
            ghost serves: map<nat, (nat, nat)>, ghost used0: set<nat>, ghost mem0: seq<Data>)
      returns (ok: bool, ghost serves': map<nat, (nat, nat)>, ghost at: map<nat, nat>, ghost stop: nat)
      requires original.Matching() && kernel.Sized() && child.Sized() && child != original && child != kernel
               && i < ENTRIES
      requires Forking(original, kernel, child, i, serves, used0, mem0) && Copies(original, kernel, i)
      requires original.tables[i] != null && Backed(original.tables[i].pages, used0)
      requires exists k :: 0 <= k < ENTRIES && original.tables[k] == null
      modifies this, frames, original`tables, original`physicalTables, child`tables, child`physicalTables
      ensures original.tables == old(original.tables) && original.physicalTables == old(original.physicalTables)
      ensures kernel.tables == old(kernel.tables) && kernel.physicalTables == old(kernel.physicalTables)
              && child.Sized()
      ensures ok ==> child.tables[..i] == old(child.tables[..i]) && child.tables[i] != null && fresh(child.tables[i])
      ensures !ok ==> child.tables == old(child.tables)
      ensures Forking(original, kernel, child, if ok then i + 1 else i, serves', used0, mem0)
      ensures at.Keys !! old(frames.Used()) && serves' == if ok then serves + Serving(at, i) else serves
      ensures ok ==> PagesTaken(original.tables[i].pages, child.tables[i].pages, ENTRIES, at)
      ensures ok ==> var f := child.tables[i].frame;
                     f !in old(frames.Used()) + at.Keys && frames.Used() == old(frames.Used()) + at.Keys + {f}
      ensures !ok ==> frames.Used() == old(frames.Used()) + at.Keys && PagesReached(original.tables[i].pages, at, stop)
    {
      ghost var mem1 := mem;
      var t;
      t, at, stop := CloneTable(i, original);
      serves' := serves + Serving(at, i);
      if t == null {
        serves' := serves;
      } else {
        ForkedNew(original.tables[i].pages, t.pages, at, i, serves', used0, mem0, mem1, mem);
        child.tables := child.tables[i := t];
        child.physicalTables := child.physicalTables[i := t.frame * PAGE_SIZE + original.physicalTables[i] % PAGE_SIZE];
      }
      ok := t != null;
      forall k | 0 <= k < i ensures SlotForked(original, kernel, child, k, serves', used0, mem0) {
        assert old(SlotForked(original, kernel, child, k, serves, used0, mem0));
        if Copies(original, kernel, k) {
          ForkedKept(original.tables[k].pages, child.tables[k].pages, k, serves, serves', mem0, mem1, mem);
        }
      }
    }

    /** One turn of the loop of clone_directory that shares the kernel's table, or has no table. */
    method ShareSlot(original: PageDirectory, kernel: PageDirectory, child: PageDirectory, i: nat,
            ghost serves: map<nat, (nat, nat)>, ghost used0: set<nat>, ghost mem0: seq<Data>)
      requires original.Sized() && kernel.Sized() && child.Sized() && child != original && child != kernel
               && i < ENTRIES
      requires Forking(original, kernel, child, i, serves, used0, mem0) && !Copies(original, kernel, i)
      modifies child`tables, child`physicalTables
      ensures child.Sized() && Forking(original, kernel, child, i + 1, serves, used0, mem0)
      ensures child.tables == old(child.tables)[i := kernel.tables[i]]
    {
      if original.tables[i] == null && kernel.tables[i] == null {
        child.tables := child.tables[i := null];
        child.physicalTables := child.physicalTables[i := 0];
      } else {
        child.tables := child.tables[i := kernel.tables[i]];
        child.physicalTables := child.physicalTables[i := kernel.physicalTables[i]];
      }
      forall k | 0 <= k < i ensures SlotForked(original, kernel, child, k, serves, used0, mem0) {
        assert old(SlotForked(original, kernel, child, k, serves, used0, mem0));
      }
    }

    /** One turn of the loop of clone_directory, with the books kept. */
    method ForkSlot(original: PageDirectory, kernel: PageDirectory, child: PageDirectory, i: nat,
            ghost serves: map<nat, (nat, nat)>,
                    ghost used0: set<nat>, ghost mem0: seq<Data>)
      returns (ok: bool, ghost serves': map<nat, (nat, nat)>, ghost at: map<nat, nat>, ghost stop: nat)
      requires original.Matching() && kernel.Sized() && child.Sized() && child != original && child != kernel
               && i < ENTRIES
      requires Forking(original, kernel, child, i, serves, used0, mem0)
      requires Copies(original, kernel, i) ==> original.tables[i] != null && Backed(original.tables[i].pages, used0)
      requires exists k :: 0 <= k < ENTRIES && original.tables[k] == null
      requires Booked(frames.Used(), used0, Members(child.frames), OwnFrames(child.tables, kernel.tables, i),
               serves.Keys)
      modifies this, frames, original`tables, original`physicalTables, child`tables, child`physicalTables
      ensures original.tables == old(original.tables) && original.physicalTables == old(original.physicalTables)
      ensures kernel.tables == old(kernel.tables) && kernel.physicalTables == old(kernel.physicalTables)
              && child.Sized()
      ensures Forking(original, kernel, child, if ok then i + 1 else i, serves', used0, mem0)
      ensures ok ==> Booked(frames.Used(), used0, Members(child.frames), OwnFrames(child.tables, kernel.tables, i + 1),
              serves'.Keys)
      ensures !ok ==> child.tables == old(child.tables) && serves' == serves && original.tables[i] != null
      ensures !ok ==> OwnFrames(child.tables, kernel.tables, i) == old(OwnFrames(child.tables, kernel.tables, i))
      ensures !ok ==> at.Keys !! old(frames.Used()) && frames.Used() == old(frames.Used()) + at.Keys
      ensures !ok ==> PagesReached(original.tables[i].pages, at, stop)
    {
      hide Booked, PagesReached, PagesTaken, OwnFrames, PageFrames, Members, Forking;
      ghost var used, own, serving := frames.Used(), OwnFrames(child.tables, kernel.tables, i), serves.Keys;
      ghost var before := child.tables;
      if Copies(original, kernel, i) {
        ok, serves', at, stop := CloneSlot(original, kernel, child, i, serves, used0, mem0);
        if ok {
          FirstSame(before, child.tables, i);
          TakenFrames(original.tables[i].pages, child.tables[i].pages, at);
          BookedMore(used, used0, Members(child.frames), own, serving, at.Keys, child.tables[i].frame);
          assert serves'.Keys == serving + at.Keys;
          assert child.tables[i] != kernel.tables[i];
        }
      } else {
        ShareSlot(original, kernel, child, i, serves, used0, mem0);
        ok, serves', at, stop := true, serves, map[], 0;
        assert frames.Used() == used;
      }
      if ok {
        OwnPrefix(before, child.tables, kernel.tables, i);
        OwnNext(child.tables, kernel.tables, i);
      }
    }

    /** clone_directory: every table is a copy in new frames or the kernel's own, and the parent is as it
        was. If it fails, what was in use is still in use and unchanged, and exactly the new frames of the
        table it could not finish are leaked; frame 0, which stands for no frame, may be too. */
    method CloneDirectory(original: PageDirectory, kernel: PageDirectory)
      returns (child: PageDirectory?, ghost serves: map<nat, (nat, nat)>, ghost slot: nat, ghost at: map<nat, nat>,
          ghost stop: nat)
      requires Valid() && Forkable(original, kernel, frames.Used())
      modifies this, frames, original`tables, original`physicalTables
      ensures original.tables == old(original.tables) && original.physicalTables == old(original.physicalTables)
      ensures Valid() && |mem| == |old(mem)| && old(frames.Used()) <= frames.Used()
      ensures forall f :: f in old(frames.Used()) && f < |mem| ==> mem[f] == old(mem[f])
      ensures child != null ==>
                && fresh(child) && child.Sized() && original.Sized() && kernel.Sized()
                && Forking(original, kernel, child, ENTRIES, serves, old(frames.Used()), old(mem))
                && forall i :: 0 <= i < 1024 ==> Inherited(original, kernel, child, i, old(frames.Used()), old(mem))
      ensures child == null ==>
                && (at == map[] || (slot < |original.tables| && original.tables[slot] != null
                                    && PagesReached(original.tables[slot].pages, at, stop)))
                && at.Keys !! old(frames.Used())
                && old(frames.Used()) + at.Keys <= frames.Used() <= old(frames.Used()) + at.Keys + {0}
    {
      hide Booked, PagesReached, OwnFrames, Members, Memory.SlotForked, Backed;
      ghost var used0, mem0 := frames.Used(), mem;
      serves, slot, at, stop := map[], 0, map[], 0;
      var ok, got := KmallocAlign(3);
      NoMembers();
      if !ok {
        assert got == [];
        child := null;
        return;
      }
      child := new PageDirectory(got);
      BookedStart(used0, Members(got), child.tables, kernel.tables, serves.Keys);
      for i := 0 to ENTRIES
        invariant original.tables == old(original.tables) && original.physicalTables == old(original.physicalTables)
        invariant kernel.tables == old(kernel.tables) && kernel.physicalTables == old(kernel.physicalTables)
        invariant child.Sized() && Forking(original, kernel, child, i, serves, used0, mem0)
        invariant Booked(frames.Used(), used0, Members(got), OwnFrames(child.tables, kernel.tables, i), serves.Keys)
      {
        ghost var used, own := frames.Used(), OwnFrames(child.tables, kernel.tables, i);
        ok, serves, at, stop := ForkSlot(original, kernel, child, i, serves, used0, mem0);
        if !ok {
          slot := i;
          BookedFreed(used, used0, Members(got), own, serves.Keys, at.Keys);
          Abandon(original, kernel, child, i, serves, used0, mem0);
          child := null;
          return;
        }
      }
      forall i | 0 <= i < 1024 ensures Inherited(original, kernel, child, i, used0, mem0) {
        ForkInherits(original, kernel, child, i, serves, used0, mem0);
      }
    }

    /** Gives back what a failed clone_directory had got. */
    method Abandon(original: PageDirectory, kernel: PageDirectory, child: PageDirectory, ghost i: nat,
            ghost serves: map<nat, (nat, nat)>, ghost used0: set<nat>, ghost mem0: seq<Data>)
      requires original.Sized() && kernel.Sized() && child.Sized() && child != original && child != kernel
               && i < ENTRIES
      requires Forking(original, kernel, child, i, serves, used0, mem0) && Members(child.frames) !! used0
      modifies frames, child`tables
      ensures Valid() && used0 <= frames.Used()
      ensures frames.Used() == old(frames.Used()) - old(OwnFrames(child.tables, kernel.tables,
              i)) - Members(child.frames)
    {
      hide OwnFrames;
      forall k | 0 <= k < ENTRIES && child.tables[k] != null && child.tables[k] != kernel.tables[k]
        ensures TableOutside(child.tables[k], used0)
      {
        assert SlotForked(original, kernel, child, k, serves, used0, mem0);
        ForkedOutside(original.tables[k].pages, child.tables[k].pages, k, serves, used0, mem0, mem);
      }
      OwnOutside(child.tables, kernel.tables, ENTRIES, used0);
      OwnRest(child.tables, kernel.tables, i, ENTRIES);
      FreePageDirectory(child, kernel);
    }
  }

  lemma FirstSame(a: seq<PageTable?>, b: seq<PageTable?>, n: nat)
    requires n <= |a| && n <= |b| && a[..n] == b[..n]
    ensures forall i :: 0 <= i < n ==> a[i] == b[i]
  {
    forall i | 0 <= i < n ensures a[i] == b[i] { assert a[..n][i] == b[..n][i]; }
  }

  lemma NoMembers()
    ensures Members([]) == {}
  {
  }

  lemma BookedStart(used0: set<nat>, got: set<nat>, tables: seq<PageTable?>, kernel: seq<PageTable?>, serving: set<nat>)
    requires used0 !! got && serving == {}
    ensures Booked(used0 + got, used0, got, OwnFrames(tables, kernel, 0), serving)
  {
  }

  lemma OwnNext(tables: seq<PageTable?>, kernel: seq<PageTable?>, i: nat)
    requires i < |tables| && i < |kernel|
    ensures OwnFrames(tables, kernel, i + 1)
         == OwnFrames(tables, kernel, i)
            + (if tables[i] == null || tables[i] == kernel[i] then {} else PageFrames(tables[i].pages))
            + (if tables[i] == null || tables[i] == kernel[i] then {} else {tables[i].frame})
  {
  }

  /** What clone_directory needs of the parent: a free slot to lend, tables where the kernel has them, and
      every page that will be copied in a frame that is marked as used. */
  ghost predicate Forkable(original: PageDirectory, kernel: PageDirectory, used: set<nat>)
    reads original, kernel, original.tables
  {
    && original.Matching() && kernel.Sized()
    && (exists k :: 0 <= k < ENTRIES && original.tables[k] == null)
    && (forall i :: 0 <= i <= STACK_LAST && kernel.tables[i] != null ==> original.tables[i] != null)
    && (forall i :: STACK_LAST < i < ENTRIES && original.tables[i] != null ==> kernel.tables[i] != null)
    && (forall i :: 0 <= i < ENTRIES && original.tables[i] != null && Copies(original, kernel, i) ==>
       Backed(original.tables[i].pages, used))
  }

  /** The same flags, and the same contents in a frame that was not in use. */
  ghost predicate PageInherited(from: Page, to: Page, used0: set<nat>, mem0: seq<Data>, mem: seq<Data>) {
    && to.present == from.present
    && (from.present ==>
          && to.rw == from.rw && to.user == from.user && to.accessed == from.accessed && to.dirty == from.dirty
          && to.frame !in used0 && from.frame < |mem0| && to.frame < |mem| && mem[to.frame] == mem0[from.frame])
  }

  /** No two pages of the child share a frame, and none has a frame that was in use. */
  lemma ForkedApart(src: seq<Page>, dst: seq<Page>, i: nat, c: nat, src': seq<Page>, dst': seq<Page>, i': nat, c': nat,
          serves: map<nat, (nat, nat)>, used0: set<nat>, mem0: seq<Data>, mem: seq<Data>)
    requires TableForked(src, dst, i, serves, mem0, mem) && TableForked(src', dst', i', serves, mem0, mem)
             && serves.Keys !! used0
    requires c < ENTRIES && c' < ENTRIES && src[c].present && src'[c'].present && (i, c) != (i', c')
    ensures dst[c].frame != dst'[c'].frame && dst[c].frame !in used0
  {
    assert PageForked(src[c], dst[c], i, c, serves, mem0, mem);
    assert PageForked(src'[c'], dst'[c'], i', c', serves, mem0, mem);
  }

  lemma ForkedOutside(src: seq<Page>, dst: seq<Page>, i: nat, serves: map<nat, (nat, nat)>, used0: set<nat>,
          mem0: seq<Data>, mem: seq<Data>)
    requires TableForked(src, dst, i, serves, mem0, mem) && serves.Keys !! used0
    ensures |dst| == ENTRIES && forall c :: 0 <= c < ENTRIES && dst[c].present ==> dst[c].frame !in used0
  {
    forall c | 0 <= c < ENTRIES && dst[c].present ensures dst[c].frame !in used0 {
      assert PageForked(src[c], dst[c], i, c, serves, mem0, mem);
    }
  }

  /** The page each new frame of table i serves. */
  ghost function Serving(at: map<nat, nat>, i: nat): map<nat, (nat, nat)> {
    map f | f in at :: (i, at[f])
  }

  /** Page c of table i of the child: the parent's flags and contents, in a frame that serves it alone. */
  ghost predicate PageForked(src: Page, dst: Page, i: nat, c: nat, serves: map<nat, (nat, nat)>, mem0: seq<Data>,
          mem: seq<Data>) {
    if src.present then
      && dst == src.(frame := dst.frame) && dst.frame in serves && serves[dst.frame] == (i, c)
      && src.frame < |mem0| && dst.frame < |mem| && mem[dst.frame] == mem0[src.frame]
    else !dst.present
  }

  ghost predicate TableForked(src: seq<Page>, dst: seq<Page>, i: nat, serves: map<nat, (nat, nat)>, mem0: seq<Data>,
          mem: seq<Data>) {
    |src| == |dst| == ENTRIES && forall c :: 0 <= c < ENTRIES ==> PageForked(src[c], dst[c], i, c, serves, mem0, mem)
  }

  lemma ForkedNew(src: seq<Page>, dst: seq<Page>, at: map<nat, nat>, i: nat, serves: map<nat, (nat, nat)>,
          used0: set<nat>, mem0: seq<Data>, mem1: seq<Data>, mem: seq<Data>)
    requires PagesTaken(src, dst, ENTRIES, at) && DataCopied(src, dst, ENTRIES, at, mem1, mem) && Backed(src, used0)
    requires |mem0| == |mem1| && forall f :: f in used0 && f < |mem1| ==> mem1[f] == mem0[f]
    requires forall f :: f in at ==> f in serves && serves[f] == (i, at[f])
    ensures TableForked(src, dst, i, serves, mem0, mem)
  {
    forall c | 0 <= c < ENTRIES ensures PageForked(src[c], dst[c], i, c, serves, mem0, mem) {
      assert PageTaken(src[c], dst[c], at, c);
    }
  }

  /** A copied table stays a copy while its frames stay as they are. */
  lemma ForkedKept(src: seq<Page>, dst: seq<Page>, i: nat, serves: map<nat, (nat, nat)>, serves': map<nat, (nat, nat)>,
          mem0: seq<Data>, mem1: seq<Data>, mem: seq<Data>)
    requires TableForked(src, dst, i, serves, mem0, mem1) && |mem| == |mem1|
    requires forall f :: f in serves ==> f in serves' && serves'[f] == serves[f] && (f < |mem| ==> mem[f] == mem1[f])
    ensures TableForked(src, dst, i, serves', mem0, mem)
  {
    forall c | 0 <= c < ENTRIES ensures PageForked(src[c], dst[c], i, c, serves', mem0, mem) {
      assert PageForked(src[c], dst[c], i, c, serves, mem0, mem1);
    }
  }

  /** clone_directory copies table i rather than sharing it. */
  predicate Copies(original: PageDirectory, kernel: PageDirectory, i: nat)
    requires original.Sized() && kernel.Sized() && i < ENTRIES
    reads original, kernel
  {
    && !(original.tables[i] == null && kernel.tables[i] == null)
    && (STACK_FIRST <= i <= STACK_LAST || (i <= STACK_LAST && original.tables[i] != kernel.tables[i]))
  }

  /** No frame of the table is in `keep`. */
  ghost predicate TableOutside(t: PageTable, keep: set<nat>)
    reads t
  {
    t.frame !in keep && |t.pages| == ENTRIES && forall c :: 0 <= c < ENTRIES && t.pages[c].present ==>
        t.pages[c].frame !in keep
  }
}
