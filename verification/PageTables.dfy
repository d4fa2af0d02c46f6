/** Four-level page tables over an array of 512-entry physical frames: what a virtual page
    translates to, and which changes to memory keep the tree well formed. */
module PageTables {
  import Bits = FrameBitmap
  import opened Division
  import opened Wrappers

  const PAGE_SIZE: nat := 4096
  /** 4-KiB pages in the 48-bit virtual address space. */
  const PAGES: nat := 0x10_0000_0000

  // ---------------------------------------------------------------- entries

  /** A 64-bit table entry. */
  type Entry = nat

  type Frame = f: seq<Entry> | |f| == 512 witness seq(512, _ => 0)

  function ZeroFrame(): Frame {
    seq(512, _ => 0)
  }

  /** Bit 0 of an entry. */
  predicate Present(e: Entry) {
    e % 2 == 1
  }

  lemma PresentBit(e: Entry)
    ensures Present(e) <==> Bits.Bit(e, 0)
  {
  }

  /** The frame number held in an entry: `(e & ~0xfff) / 4096`. */
  function FrameOf(e: Entry): nat {
    e / PAGE_SIZE
  }

  /** `(address & ~0xfff) | MMU_PRESENT | MMU_WRITABLE`. */
  function AddressToEntry(address: nat): (e: Entry)
    ensures e % PAGE_SIZE == 3 && Present(e) && FrameOf(e) == address / PAGE_SIZE
  {
    address - address % PAGE_SIZE + 3
  }

  /** `entry | meta` for an entry made by AddressToEntry, whose low twelve bits are 3. */
  function WithMeta(e: Entry, meta: nat): (r: Entry)
    requires e % PAGE_SIZE == 3 && meta < PAGE_SIZE
    ensures Present(r) && FrameOf(r) == FrameOf(e) && r % 4 == 3
  {
    MetaKeepsFrame(e / PAGE_SIZE, meta / 4);
    e + (meta - meta % 4)
  }

  lemma MetaKeepsFrame(q: nat, j: nat)
    requires j < 1024
    ensures (PAGE_SIZE * q + 3 + 4 * j) / PAGE_SIZE == q
    ensures (PAGE_SIZE * q + 3 + 4 * j) % 4 == 3 && (PAGE_SIZE * q + 3 + 4 * j) % 2 == 1
  {
    FrameQuotient(q, 3 + 4 * j);
    FlagBits(1024 * q + j);
  }

  lemma FrameQuotient(q: nat, r: nat)
    requires r < PAGE_SIZE
    ensures (PAGE_SIZE * q + r) / PAGE_SIZE == q
  {
  }

  lemma FlagBits(h: nat)
    ensures (4 * h + 3) % 4 == 3 && (4 * h + 3) % 2 == 1
  {
    assert (4 * h + 3) % 2 == 1 by {
      OddBit(2 * h + 1);
    }
  }

  lemma OddBit(g: nat)
    ensures (2 * g + 1) % 2 == 1
  {
  }

  /** The entry holds the frame; of its low twelve bits the first two, present and writable, are set
      and those of the metadata, and no others. */
  ghost predicate EntryFor(e: Entry, frame: nat, meta: nat) {
    FrameOf(e) == frame && forall j: nat | j < 12 :: Bits.Bit(e, j) <==> j < 2 || Bits.Bit(meta, j)
  }

  /** The bits below the `n`-th do not depend on what stands above. */
  lemma {:induction false} LowBits(p: nat, q: nat, low: nat, n: nat, j: nat)
    requires p == Power(2, n) && j < n
    ensures Bits.Bit(p * q + low, j) <==> Bits.Bit(low, j)
    decreases n
  {
    var h := Power(2, n - 1);
    Doubled(h, q, low, p * q + low);
    if j > 0 {
      LowBits(h, q, low / 2, n - 1, j - 1);
    }
  }

  lemma Doubled(h: nat, q: nat, low: nat, x: nat)
    requires x == 2 * h * q + low
    ensures x / 2 == h * q + low / 2 && x % 2 == low % 2
  {
    var z := h * q;
    assert x == 2 * z + low;
  }

  /** The first two bits set, and the metadata's above them. */
  lemma FlaggedBits(meta: nat, j: nat)
    ensures Bits.Bit(3 + 4 * (meta / 4), j) <==> j < 2 || Bits.Bit(meta, j)
  {
    var low := 3 + 4 * (meta / 4);
    assert low % 2 == 1 && low / 2 == 1 + 2 * (meta / 4);
    assert low / 2 % 2 == 1 && low / 2 / 2 == meta / 4 == meta / 2 / 2;
    if j >= 2 {
      assert Bits.Bit(low, j) == Bits.Bit(low / 2, j - 1) == Bits.Bit(low / 2 / 2, j - 2);
      assert Bits.Bit(meta, j) == Bits.Bit(meta / 2, j - 1) == Bits.Bit(meta / 2 / 2, j - 2);
    }
  }

  lemma TwelveBits()
    ensures Power(2, 12) == PAGE_SIZE
  {
    hide Power;
    PowerOne(2);
    PowerSum(2, 1, 1, 2, 2);
    PowerSum(2, 2, 2, 4, 4);
    PowerSum(2, 4, 4, 16, 16);
    PowerSum(2, 8, 4, 256, 16);
  }

  lemma MetaBits(e: Entry, meta: nat)
    requires e % PAGE_SIZE == 3 && meta < PAGE_SIZE
    ensures EntryFor(WithMeta(e, meta), FrameOf(e), meta)
  {
    var r, q := WithMeta(e, meta), e / PAGE_SIZE;
    var low := 3 + 4 * (meta / 4);
    assert r == PAGE_SIZE * q + low;
    TwelveBits();
    hide Bits.Bit, Power, WithMeta;
    forall j: nat | j < 12
      ensures Bits.Bit(r, j) <==> j < 2 || Bits.Bit(meta, j)
    {
      LowBits(PAGE_SIZE, q, low, 12, j);
      FlaggedBits(meta, j);
    }
  }

  /** A page-aligned address is recovered from the entry that points at it. */
  lemma NewEntry(address: nat, meta: nat)
    requires meta < PAGE_SIZE
    ensures var e := WithMeta(AddressToEntry(address), meta);
            && EntryFor(e, address / PAGE_SIZE, meta)
            && e != 0 && (address % PAGE_SIZE == 0 ==> FrameOf(e) * PAGE_SIZE == address)
  {
    MetaBits(AddressToEntry(address), meta);
    hide EntryFor;
  }

  // ---------------------------------------------------------------- virtual addresses

  /** Table indices from the root down, at most four of them. */
  type Path = seq<nat>

  predicate ValidPath(p: Path) {
    |p| <= 4 && forall i | 0 <= i < |p| :: p[i] < 512
  }

  function PML4Index(address: nat): nat { address / 0x80_0000_0000 % 512 }
  function PDPTIndex(address: nat): nat { address / 0x4000_0000 % 512 }
  function PDTIndex(address: nat): nat { address / 0x20_0000 % 512 }
  function PTIndex(address: nat): nat { address / 0x1000 % 512 }

  /** The path the hardware walks for a virtual address. */
  function AddressPath(address: nat): Path {
    [PML4Index(address), PDPTIndex(address), PDTIndex(address), PTIndex(address)]
  }

  /** The path of a page number; pages are numbered by bits 12 to 47 of the address. */
  function PagePath(page: nat): Path {
    [page / 0x800_0000 % 512, page / 0x4_0000 % 512, page / 512 % 512, page % 512]
  }

  function PathPage(p: Path): nat
    requires |p| == 4
  {
    p[0] * 0x800_0000 + p[1] * 0x4_0000 + p[2] * 512 + p[3]
  }

  lemma ShiftTwice(address: nat)
    ensures address / 0x20_0000 == address / 0x1000 / 512
    ensures address / 0x4000_0000 == address / 0x1000 / 0x4_0000
    ensures address / 0x80_0000_0000 == address / 0x1000 / 0x800_0000
  {
  }

  /** The four extracted indices depend on bits 12 to 47 only. */
  lemma AddressIsPage(address: nat)
    ensures AddressPath(address) == PagePath(address / PAGE_SIZE)
    ensures AddressPath(address) == PagePath(address / PAGE_SIZE % PAGES)
    ensures ValidPath(AddressPath(address))
  {
    ShiftTwice(address);
    PathWraps(address / PAGE_SIZE);
  }

  lemma PathWraps(n: nat)
    ensures PagePath(n) == PagePath(n % PAGES)
  {
    var k, r := n / PAGES, n % PAGES;
    assert n == k * PAGES + r;
    AddMultiple(512, n, r, k * 0x800_0000);
    AddMultiple(512, n / 512, r / 512, k * 0x4_0000);
    AddMultiple(512, n / 0x4_0000, r / 0x4_0000, k * 512);
    AddMultiple(512, n / 0x800_0000, r / 0x800_0000, k);
  }

  lemma PageToPath(page: nat)
    requires page < PAGES
    ensures ValidPath(PagePath(page)) && PathPage(PagePath(page)) == page
  {
    var a, b, c := page / 512, page / 0x4_0000, page / 0x800_0000;
    assert page == 512 * a + page % 512;
    assert a == 512 * b + a % 512;
    assert b == 512 * c + b % 512;
  }

  lemma PathToPage(p: Path)
    requires ValidPath(p) && |p| == 4
    ensures PathPage(p) < PAGES && PagePath(PathPage(p)) == p
  {
    PathQuotients(p[0], p[1], p[2], p[3]);
    AddMultiple(512, PathPage(p) / 512, p[2], p[0] * 512 + p[1]);
    AddMultiple(512, PathPage(p) / 0x4_0000, p[1], p[0]);
    assert PagePath(PathPage(p)) == [p[0], p[1], p[2], p[3]];
  }

  lemma PathQuotients(a: nat, b: nat, c: nat, d: nat)
    requires a < 512 && b < 512 && c < 512 && d < 512
    ensures var n := a * 0x800_0000 + b * 0x4_0000 + c * 512 + d;
            && n < PAGES && n % 512 == d
            && n / 512 == a * 0x4_0000 + b * 512 + c
            && n / 0x4_0000 == a * 512 + b
            && n / 0x800_0000 == a
  {
  }

  // ---------------------------------------------------------------- the walk

  type Memory = seq<Frame>

  /** The frame reached from the root along `p`: a table for up to three indices, the mapped
      frame for four. */
  ghost function Walk(mem: Memory, root: nat, p: Path): Option<nat>
    decreases |p|, 1
  {
    if |p| == 0 then Some(root)
    else
      var e := Slot(mem, root, p);
      if e.Some? && Present(e.value) then Some(FrameOf(e.value)) else None
  }

  /** The entry at the end of `p`, if the tables above it exist. */
  ghost function Slot(mem: Memory, root: nat, p: Path): Option<Entry>
    requires |p| > 0
    decreases |p|, 0
  {
    var last := |p| - 1;
    var table := Walk(mem, root, p[..last]);
    if table.Some? && table.value < |mem| && p[last] < 512
    then Some(mem[table.value][p[last]])
    else None
  }

  /** What a page translates to: its present last-level entry. */
  ghost function Mapping(mem: Memory, root: nat, page: nat): Option<Entry> {
    var e := Slot(mem, root, PagePath(page));
    if e.Some? && Present(e.value) then e else None
  }

  /** Every page translates in both memories alike. */
  ghost predicate SameSpace(mem: Memory, mem': Memory, root: nat) {
    forall page: nat | page < PAGES :: Mapping(mem', root, page) == Mapping(mem, root, page)
  }

  /** Every page but one translates in both memories alike. */
  ghost predicate SameSpaceExcept(mem: Memory, mem': Memory, root: nat, page: nat) {
    forall other: nat | other < PAGES && other != page ::
      Mapping(mem', root, other) == Mapping(mem, root, other)
  }

  // ---------------------------------------------------------------- well-formed trees

  /** `f` is the table reached along `p`. */
  ghost predicate TableAt(mem: Memory, root: nat, p: Path, f: nat) {
    |p| <= 3 && ValidPath(p) && Walk(mem, root, p) == Some(f)
  }

  ghost predicate IsTable(mem: Memory, root: nat, f: nat) {
    exists p: Path :: TableAt(mem, root, p, f)
  }

  /** Every reachable table lies in memory and is reached along one path only. */
  ghost predicate WellFormed(mem: Memory, root: nat) {
    && (forall p: Path, f: nat | TableAt(mem, root, p, f) :: f < |mem|)
    && (forall p: Path, q: Path, f: nat | TableAt(mem, root, p, f) && TableAt(mem, root, q, f) :: p == q)
  }

  /** No frame that may still be handed out is a table, and all of them exist. */
  ghost predicate Apart(mem: Memory, root: nat, free: set<nat>) {
    && (forall p: Path, f: nat | TableAt(mem, root, p, f) :: f !in free)
    && (forall f: nat | f in free :: f < |mem|)
  }

  // ---------------------------------------------------------------- effect of one write

  /** `mem'` is `mem` with entry `i` of frame `f` overwritten by `e`, as far as tables go. */
  ghost predicate WritesEntry(mem: Memory, mem': Memory, root: nat, f: nat, i: nat, e: Entry) {
    && |mem'| == |mem| && f < |mem| && i < 512
    && mem'[f] == mem[f][i := e]
    && (forall p: Path, x: nat | TableAt(mem, root, p, x) && x < |mem| && x != f :: mem'[x] == mem[x])
  }

  ghost predicate Extends(p: Path, t: Path, i: nat) {
    |t| < |p| && p[..|t|] == t && p[|t|] == i
  }

  lemma ExtendsLonger(p: Path, t: Path, i: nat)
    requires |p| > 0 && Extends(p[..|p| - 1], t, i)
    ensures Extends(p, t, i)
  {
    assert p[..|p| - 1][..|t|] == p[..|t|];
  }

  /** A write at the end of path `t + [i]` is invisible along every path that does not pass
      through it. */
  lemma {:induction false} WriteElsewhere(mem: Memory, mem': Memory, root: nat,
                                          t: Path, f: nat, i: nat, e: Entry, p: Path)
    requires WellFormed(mem, root) && TableAt(mem, root, t, f)
    requires WritesEntry(mem, mem', root, f, i, e)
    requires ValidPath(p) && !Extends(p, t, i)
    ensures Walk(mem', root, p) == Walk(mem, root, p)
    ensures |p| > 0 ==> Slot(mem', root, p) == Slot(mem, root, p)
    decreases |p|
  {
    if |p| > 0 {
      var q := p[..|p| - 1];
      if Extends(q, t, i) {
        ExtendsLonger(p, t, i);
      }
      WriteElsewhere(mem, mem', root, t, f, i, e, q);
      var w := Walk(mem, root, q);
      if w.Some? {
        assert TableAt(mem, root, q, w.value);
        if w.value == f {
          assert q == t;
        }
      }
    }
  }

  /** The written slot itself. */
  lemma WriteHere(mem: Memory, mem': Memory, root: nat, t: Path, f: nat, i: nat, e: Entry)
    requires WellFormed(mem, root) && TableAt(mem, root, t, f)
    requires WritesEntry(mem, mem', root, f, i, e)
    ensures Slot(mem', root, t + [i]) == Some(e)
    ensures Walk(mem', root, t + [i]) == if Present(e) then Some(FrameOf(e)) else None
  {
    WriteElsewhere(mem, mem', root, t, f, i, e, t);
    assert (t + [i])[..|t|] == t;
  }

  // ---------------------------------------------------------------- leaf writes

  /** A last-level write leaves the tables themselves alone. */
  lemma LeafKeepsTables(mem: Memory, mem': Memory, root: nat, t: Path, f: nat, i: nat, e: Entry,
                        p: Path, x: nat)
    requires WellFormed(mem, root) && |t| == 3 && TableAt(mem, root, t, f)
    requires WritesEntry(mem, mem', root, f, i, e)
    ensures TableAt(mem', root, p, x) <==> TableAt(mem, root, p, x)
  {
    if ValidPath(p) && |p| <= 3 {
      WriteElsewhere(mem, mem', root, t, f, i, e, p);
    }
  }

  /** Writing a last-level entry changes the translation of one page and nothing else. */
  lemma WriteLeaf(mem: Memory, mem': Memory, root: nat, page: nat, f: nat, e: Entry, free: set<nat>)
    requires WellFormed(mem, root) && Apart(mem, root, free) && page < PAGES
    requires TableAt(mem, root, PagePath(page)[..3], f)
    requires WritesEntry(mem, mem', root, f, PagePath(page)[3], e)
    ensures WellFormed(mem', root) && Apart(mem', root, free)
    ensures forall p: Path, x: nat :: TableAt(mem', root, p, x) <==> TableAt(mem, root, p, x)
    ensures Mapping(mem', root, page) == if Present(e) then Some(e) else None
    ensures SameSpaceExcept(mem, mem', root, page)
  {
    var path := PagePath(page);
    forall p: Path, x: nat
      ensures TableAt(mem', root, p, x) <==> TableAt(mem, root, p, x)
    {
      LeafKeepsTables(mem, mem', root, path[..3], f, path[3], e, p, x);
    }
    assert path[..3] + [path[3]] == path;
    WriteHere(mem, mem', root, path[..3], f, path[3], e);
    forall other: nat | other < PAGES && other != page
      ensures Mapping(mem', root, other) == Mapping(mem, root, other)
    {
      LeafElsewhere(mem, mem', root, page, f, e, other);
    }
  }

  lemma LeafElsewhere(mem: Memory, mem': Memory, root: nat, page: nat, f: nat, e: Entry, other: nat)
    requires WellFormed(mem, root) && page < PAGES && other < PAGES && other != page
    requires TableAt(mem, root, PagePath(page)[..3], f)
    requires WritesEntry(mem, mem', root, f, PagePath(page)[3], e)
    ensures Mapping(mem', root, other) == Mapping(mem, root, other)
  {
    var path, q := PagePath(page), PagePath(other);
    PageToPath(page);
    PageToPath(other);
    assert path == path[..3] + [path[3]];
    assert q == q[..3] + [q[3]];
    WriteElsewhere(mem, mem', root, path[..3], f, path[3], e, q);
  }

  // ---------------------------------------------------------------- linking a new table

  /** Memory after a fresh zeroed frame `g` is linked at entry `i` of table `f`. */
  function Link(mem: Memory, f: nat, i: nat, g: nat): Memory
    requires f < |mem| && g < |mem| && i < 512
  {
    mem[f := mem[f][i := AddressToEntry(g * PAGE_SIZE)]][g := ZeroFrame()]
  }

  /** Nothing is reachable through the fresh table. */
  lemma {:induction false} FreshTableIsEmpty(mem: Memory, root: nat, t: Path, i: nat, g: nat, p: Path)
    requires Walk(mem, root, t + [i]) == Some(g) && g < |mem| && mem[g] == ZeroFrame()
    requires ValidPath(p) && Extends(p, t, i) && |p| > |t| + 1
    ensures Walk(mem, root, p) == None
    ensures Slot(mem, root, p).Some? ==> !Present(Slot(mem, root, p).value)
    decreases |p|
  {
    var q := p[..|p| - 1];
    if |p| == |t| + 2 {
      assert q == t + [i];
    } else {
      assert q[..|t|] == p[..|t|];
      FreshTableIsEmpty(mem, root, t, i, g, q);
    }
  }

  /** `mem'` has exactly one table more than `mem`: frame `g`, reached along `p`. */
  ghost predicate OneMoreTable(mem: Memory, mem': Memory, root: nat, p: Path, g: nat) {
    forall q: Path | ValidPath(q) && |q| <= 3 ::
      Walk(mem', root, q) == if q == p then Some(g) else Walk(mem, root, q)
  }

  /** Linking a fresh table keeps the tree well formed and translates every page as before. */
  lemma LinkTable(mem: Memory, root: nat, t: Path, f: nat, i: nat, g: nat, free: set<nat>)
    requires WellFormed(mem, root) && Apart(mem, root, free)
    requires |t| < 3 && TableAt(mem, root, t, f) && i < 512 && f < |mem| && !Present(mem[f][i])
    requires g in free
    ensures f != g && Walk(mem, root, t + [i]) == None
    ensures var mem' := Link(mem, f, i, g);
            && WellFormed(mem', root) && Apart(mem', root, free - {g})
            && OneMoreTable(mem, mem', root, t + [i], g)
            && SameSpace(mem, mem', root)
  {
    var mem' := Link(mem, f, i, g);
    LinkedWalks(mem, root, t, f, i, g, free);
    forall q: Path | ValidPath(q) && |q| <= 3
      ensures Walk(mem', root, q) == if q == t + [i] then Some(g) else Walk(mem, root, q)
    {
      LinkedWalk(mem, root, t, f, i, g, free, q);
    }
    LinkedWalk(mem, root, t, f, i, g, free, t + [i]);
    assert forall p: Path, x: nat ::
      TableAt(mem', root, p, x) <==> if p == t + [i] then x == g else TableAt(mem, root, p, x);
  }

  /** Along every path except the new one the walk is as before. */
  lemma LinkedWalk(mem: Memory, root: nat, t: Path, f: nat, i: nat, g: nat, free: set<nat>, p: Path)
    requires WellFormed(mem, root) && Apart(mem, root, free)
    requires |t| < 3 && TableAt(mem, root, t, f) && i < 512 && f < |mem| && !Present(mem[f][i])
    requires g in free && ValidPath(p)
    ensures Walk(Link(mem, f, i, g), root, p) == if p == t + [i] then Some(g) else Walk(mem, root, p)
    ensures p == t + [i] ==> Walk(mem, root, p) == None
    ensures |p| == 4 ==>
              var s, s' := Slot(mem, root, p), Slot(Link(mem, f, i, g), root, p);
              (if s.Some? && Present(s.value) then s else None)
              == (if s'.Some? && Present(s'.value) then s' else None)
  {
    var mem' := Link(mem, f, i, g);
    var e := AddressToEntry(g * PAGE_SIZE);
    NewEntry(g * PAGE_SIZE, 0);
    assert WritesEntry(mem, mem', root, f, i, e);
    WriteHere(mem, mem', root, t, f, i, e);
    AbsentBelow(mem, root, t, f, i, p);
    if !Extends(p, t, i) {
      WriteElsewhere(mem, mem', root, t, f, i, e, p);
    } else if |p| == |t| + 1 {
      assert p == t + [i];
    } else {
      FreshTableIsEmpty(mem', root, t, i, g, p);
    }
  }

  /** Below an absent entry there is nothing. */
  lemma {:induction false} AbsentBelow(mem: Memory, root: nat, t: Path, f: nat, i: nat, p: Path)
    requires TableAt(mem, root, t, f) && f < |mem| && i < 512 && !Present(mem[f][i])
    requires ValidPath(p)
    ensures Extends(p, t, i) ==> Walk(mem, root, p) == None
    ensures Extends(p, t, i) && |p| > |t| + 1 ==> Slot(mem, root, p) == None
    decreases |p|
  {
    if Extends(p, t, i) {
      var q := p[..|p| - 1];
      if |p| == |t| + 1 {
        assert q == t;
      } else {
        assert q[..|t|] == p[..|t|];
        AbsentBelow(mem, root, t, f, i, q);
      }
    }
  }

  lemma LinkedWalks(mem: Memory, root: nat, t: Path, f: nat, i: nat, g: nat, free: set<nat>)
    requires WellFormed(mem, root) && Apart(mem, root, free)
    requires |t| < 3 && TableAt(mem, root, t, f) && i < 512 && f < |mem| && !Present(mem[f][i])
    requires g in free
    ensures SameSpace(mem, Link(mem, f, i, g), root)
  {
    var mem' := Link(mem, f, i, g);
    forall page: nat | page < PAGES
      ensures Mapping(mem', root, page) == Mapping(mem, root, page)
    {
      PageToPath(page);
      LinkedWalk(mem, root, t, f, i, g, free, PagePath(page));
    }
  }
}
