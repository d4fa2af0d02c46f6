/** What one step of either pager may do to memory and to the pool of free frames. */
module PagerSteps {
  import opened Wrappers
  import opened PageTables

  /** Physical memory and the frames an allocator may still hand out. */
  datatype View = View(mem: Memory, free: set<nat>)

  ghost predicate Good(v: View, root: nat) {
    WellFormed(v.mem, root) && Apart(v.mem, root, v.free)
  }

  /** Frames neither free nor tables: page assignment must not touch them. */
  ghost predicate Bystander(v: View, root: nat, x: nat) {
    x < |v.mem| && x !in v.free && !IsTable(v.mem, root, x)
  }

  /** Only free frames and tables change, and frames leave the pool but never enter it. */
  ghost predicate Contained(v: View, w: View, root: nat) {
    && |w.mem| == |v.mem| && w.free <= v.free
    && forall x: nat | Bystander(v, root, x) :: Bystander(w, root, x) && w.mem[x] == v.mem[x]
  }

  /** One if there is no table at `q`, else zero. */
  ghost function Lacks(v: View, root: nat, q: Path): nat {
    if Walk(v.mem, root, q).None? then 1 else 0
  }

  /** Tables missing on the way to the last-level entry of `p`. */
  ghost function MissingTables(v: View, root: nat, p: Path): nat
    requires |p| == 4
  {
    Lacks(v, root, p[..1]) + Lacks(v, root, p[..2]) + Lacks(v, root, p[..3])
  }

  /** Frames taken to map an unmapped page: missing tables, and the page itself when no
      physical address is given. */
  ghost function Needed(v: View, root: nat, page: nat, physical: nat): nat {
    MissingTables(v, root, PagePath(page)) + (if physical == 0 then 1 else 0)
  }

  /** Tables come and go nowhere but at `next`. */
  ghost predicate SameTablesExcept(v: View, w: View, root: nat, next: Path) {
    forall q: Path | ValidPath(q) && |q| <= 3 && q != next ::
      Walk(w.mem, root, q) == Walk(v.mem, root, q)
  }

  lemma ContainedTrans(u: View, v: View, w: View, root: nat)
    requires Contained(u, v, root) && Contained(v, w, root)
    ensures Contained(u, w, root)
  {
  }

  lemma RootIsTable(v: View, root: nat)
    requires Good(v, root)
    ensures TableAt(v.mem, root, [], root)
  {
  }

  lemma NothingTouched(v: View, root: nat)
    ensures Contained(v, v, root)
  {
  }

  lemma SpaceTrans(a: Memory, b: Memory, c: Memory, root: nat)
    requires SameSpace(a, b, root) && SameSpace(b, c, root)
    ensures SameSpace(a, c, root)
  {
    hide Mapping;
  }

  lemma LacksKept(v: View, w: View, root: nat, next: Path, q: Path)
    requires SameTablesExcept(v, w, root, next) && ValidPath(q) && |q| <= 3 && q != next
    ensures Lacks(w, root, q) == Lacks(v, root, q)
  {
    hide Walk;
  }

  /** Nothing is missing above a table or an entry that exists. */
  lemma MappedHasTables(v: View, root: nat, p: Path)
    requires |p| == 4
    ensures Walk(v.mem, root, p[..3]).Some? ==> MissingTables(v, root, p) == 0
    ensures Slot(v.mem, root, p).Some? ==> MissingTables(v, root, p) == 0
  {
    var q := p[..3];
    assert q[..2] == p[..2] && p[..2][..1] == p[..1];
    if Walk(v.mem, root, q).Some? {
      assert Slot(v.mem, root, q).Some?;
      assert Slot(v.mem, root, p[..2]).Some?;
    }
  }

  lemma TableInside(v: View, root: nat, page: nat, f: nat)
    requires Good(v, root) && page < PAGES && TableAt(v.mem, root, PagePath(page)[..3], f)
    ensures f < |v.mem| && PagePath(page)[3] < 512
  {
    PageToPath(page);
  }

  /** Following the entry of level `k` on the way to a page. */
  lemma WalkStep(v: View, root: nat, page: nat, k: nat, f: nat)
    requires Good(v, root) && page < PAGES && k <= 3 && TableAt(v.mem, root, PagePath(page)[..k], f)
    ensures f < |v.mem| && PagePath(page)[k] < 512
    ensures var e := v.mem[f][PagePath(page)[k]];
            && (k < 3 && Present(e) ==> TableAt(v.mem, root, PagePath(page)[..k + 1], FrameOf(e)))
            && (!Present(e) ==> Mapping(v.mem, root, page) == None)
            && (k == 3 ==> Mapping(v.mem, root, page) == if Present(e) then Some(e) else None)
  {
    PageToPath(page);
    var p := PagePath(page);
    assert p[..k + 1][..k] == p[..k] && p[..4] == p;
    if !Present(v.mem[f][p[k]]) {
      AbsentBelow(v.mem, root, p[..k], f, p[k], p);
    }
  }

  /** Following a present entry changes nothing; an absent one means one table is lacking. */
  lemma FollowStep(v: View, root: nat, t: Path, next: Path, f: nat, i: nat)
    requires Good(v, root) && |t| < 3 && i < 512 && next == t + [i] && TableAt(v.mem, root, t, f)
    ensures f < |v.mem|
    ensures SameTablesExcept(v, v, root, next) && SameSpace(v.mem, v.mem, root) && Contained(v, v, root)
    ensures Lacks(v, root, next) == if Present(v.mem[f][i]) then 0 else 1
    ensures Present(v.mem[f][i]) ==>
              TableAt(v.mem, root, next, FrameOf(v.mem[f][i])) && FrameOf(v.mem[f][i]) < |v.mem|
  {
    assert next[..|t|] == t;
    assert Slot(v.mem, root, next) == Some(v.mem[f][i]);
    if Present(v.mem[f][i]) {
      assert TableAt(v.mem, root, next, FrameOf(v.mem[f][i]));
    }
  }

  /** `w` is `v` with a fresh zeroed table linked at entry `i` of the table reached along `t`. */
  ghost predicate Linked(v: View, w: View, root: nat, t: Path, f: nat, i: nat, g: nat) {
    && |t| < 3 && i < 512 && TableAt(v.mem, root, t, f) && f < |v.mem| && g in v.free && g < |v.mem|
    && !Present(v.mem[f][i])
    && w == View(Link(v.mem, f, i, g), v.free - {g})
  }

  lemma LinkStep(v: View, w: View, root: nat, t: Path, f: nat, i: nat, g: nat)
    requires Good(v, root) && Linked(v, w, root, t, f, i, g)
    ensures Good(w, root) && SameSpace(v.mem, w.mem, root) && Contained(v, w, root)
    ensures SameTablesExcept(v, w, root, t + [i])
    ensures Lacks(v, root, t + [i]) == 1 && |w.free| == |v.free| - 1
    ensures TableAt(w.mem, root, t + [i], g) && FrameOf(w.mem[f][i]) == g
  {
    LinkTable(v.mem, root, t, f, i, g, v.free);
    NewEntry(g * PAGE_SIZE, 0);
    forall x: nat | Bystander(v, root, x)
      ensures Bystander(w, root, x) && w.mem[x] == v.mem[x]
    {
      assert !TableAt(v.mem, root, t, x);
      forall q: Path
        ensures !TableAt(w.mem, root, q, x)
      {
        assert !TableAt(v.mem, root, q, x);
      }
    }
  }

  /** `v` with the last-level entry `i` of table `f` overwritten, and the frame `taken`, if
      given, taken from the pool and zeroed. */
  function FillLeaf(v: View, f: nat, i: nat, e: Entry, taken: Option<nat>): View
    requires f < |v.mem| && i < 512 && (taken.Some? ==> taken.value < |v.mem|)
  {
    var mem := v.mem[f := v.mem[f][i := e]];
    if taken.None? then View(mem, v.free)
    else View(mem[taken.value := ZeroFrame()], v.free - {taken.value})
  }

  lemma LeafStep(v: View, root: nat, page: nat, f: nat, i: nat, e: Entry, taken: Option<nat>)
    requires Good(v, root) && page < PAGES && i == PagePath(page)[3] && f < |v.mem|
    requires TableAt(v.mem, root, PagePath(page)[..3], f)
    requires taken.Some? ==> taken.value in v.free && taken.value < |v.mem|
    ensures i < 512
    ensures var w := FillLeaf(v, f, i, e, taken);
            && Good(w, root) && Contained(v, w, root)
            && Mapping(w.mem, root, page) == (if Present(e) then Some(e) else None)
            && SameSpaceExcept(v.mem, w.mem, root, page)
            && w.mem[f][i] == e
            && (taken.Some? ==> !IsTable(w.mem, root, taken.value) && |w.free| == |v.free| - 1)
  {
    PageToPath(page);
    var w := FillLeaf(v, f, i, e, taken);
    assert WritesEntry(v.mem, w.mem, root, f, i, e);
    WriteLeaf(v.mem, w.mem, root, page, f, e, w.free);
    forall x: nat | Bystander(v, root, x)
      ensures Bystander(w, root, x) && w.mem[x] == v.mem[x]
    {
      assert !TableAt(v.mem, root, PagePath(page)[..3], x);
    }
  }

  /** The entry maps a zeroed frame that was free before and is neither free nor a table now. */
  ghost predicate IsFreshPage(v: View, w: View, root: nat, e: Entry, meta: nat) {
    var g := FrameOf(e);
    && EntryFor(e, g, meta)
    && g in v.free && g !in w.free && !IsTable(w.mem, root, g)
    && g < |w.mem| && w.mem[g] == ZeroFrame()
  }

  /** `page`, unmapped before, now translates to the new entry `e`, and no other page changed. */
  ghost predicate Filled(v: View, w: View, root: nat, page: nat, e: Entry, physical: nat, meta: nat) {
    && Mapping(w.mem, root, page) == Some(e) && e != 0
    && SameSpaceExcept(v.mem, w.mem, root, page)
    && (if physical != 0 then EntryFor(e, physical / PAGE_SIZE, meta)
        else IsFreshPage(v, w, root, e, meta))
  }
}
