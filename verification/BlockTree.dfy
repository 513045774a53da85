/**
 * The block index of src/chain.cpp: blocks linked to their parents and, by skip pointers, to
 * further ancestors, and the active chain as a vector of blocks.
 */
module BlockTree {
  import opened Arith

  // ------------------------------------------------------------------
  // Skip heights
  // ------------------------------------------------------------------

  /** Turn the lowest one bit into a zero: n & (n - 1). */
  function InvertLowestOne(n: nat): (r: nat)
    ensures r <= n && (n > 0 ==> r < n)
  {
    if n == 0 then 0 else AndBelow(n, n - 1); And(n, n - 1)
  }

  /** InvertLowestOne removes the lowest one bit: the last bit if it is set, else that of
      the bits before it. */
  lemma InvertLowestOneClears(n: nat)
    ensures InvertLowestOne(2 * n + 1) == 2 * n
    ensures InvertLowestOne(2 * n) == 2 * InvertLowestOne(n)
  {
    AndSelf(n);
    if n > 0 {
      assert (2 * n) / 2 == n && (2 * n - 1) / 2 == n - 1;
    }
  }

  /** The height a block's skip pointer jumps back to. */
  function GetSkipHeight(height: int): (r: nat)
    ensures height >= 1 ==> r < height
    ensures height < 2 ==> r == 0
  {
    if height < 2 then 0
    else if height % 2 == 1 then InvertLowestOne(InvertLowestOne(height - 1)) + 1
    else InvertLowestOne(height)
  }

  /** Where the search for height t goes from height h > t, if the block there has its skip pointer. */
  function NextHeight(h: nat, t: nat): (r: nat)
    requires h > t
    ensures t <= r < h
  {
    var skip, skipPrev := GetSkipHeight(h), GetSkipHeight(h - 1);
    if skip == t || (skip > t && !(skipPrev < skip - 2 && skipPrev >= t)) then skip else h - 1
  }

  /** How many steps the search takes with all skip pointers in place. */
  ghost function Steps(h: nat, t: nat): nat {
    if h <= t then 0 else 1 + Steps(NextHeight(h, t), t)
  }

  // ------------------------------------------------------------------
  // Blocks
  // ------------------------------------------------------------------

  class BlockIndex {
    const hash: nat
    const pprev: BlockIndex?
    const nHeight: nat
    var pskip: BlockIndex?
    /** The ancestors, genesis first, this block excluded. */
    ghost const ancestors: seq<BlockIndex>

    /** The path from genesis to this block. */
    ghost function Path(): (p: seq<BlockIndex>)
      ensures |p| == |ancestors| + 1
    {
      ancestors + [this]
    }

    /** The parent links of this block and of all its ancestors follow the path. */
    ghost predicate Linked() {
      && nHeight == |ancestors|
      && forall i :: 0 <= i <= |ancestors| ==> StepOk(Path(), i)
    }

    /** A skip pointer, where there is one, goes to the ancestor at the skip height. */
    ghost predicate SkipOk()
      reads this
    {
      pskip != null ==> GetSkipHeight(nHeight) < |Path()| && pskip == Path()[GetSkipHeight(nHeight)] && nHeight > 0
    }

    ghost predicate SkipsOk()
      reads this, ancestors
    {
      forall b :: b in Path() ==> b.SkipOk()
    }

    /** Every block but genesis has its skip pointer. */
    ghost predicate SkipsBuilt()
      reads this, ancestors
    {
      forall b :: b in Path() && b.nHeight > 0 ==> b.pskip != null
    }

    constructor (hash: nat, pprev: BlockIndex?)
      requires pprev != null ==> pprev.Linked() && pprev.SkipsOk()
      ensures Linked() && SkipsOk() && this.pprev == pprev && this.hash == hash
      ensures ancestors == if pprev == null then [] else pprev.Path()
    {
      this.hash, this.pprev := hash, pprev;
      nHeight := if pprev == null then 0 else pprev.nHeight + 1;
      pskip := null;
      ancestors := if pprev == null then [] else pprev.Path();
      new;
      LinkedChild(this);
    }

    /** The ancestor at a height, found by skip pointers and parent links; null if there is none. */
    method GetAncestor(height: int) returns (r: BlockIndex?, ghost steps: nat)
      requires Linked() && SkipsOk()
      ensures r == if 0 <= height <= nHeight then Walk(this, nHeight - height) else null
      ensures 0 <= height <= nHeight ==> r == Path()[height]
      ensures 0 <= height <= nHeight && SkipsBuilt() ==> steps == Steps(nHeight, height)
    {
      hide GetSkipHeight;
      steps := 0;
      if height > nHeight || height < 0 {
        return null, steps;
      }
      var pindexWalk := this;
      var heightWalk := nHeight;
      while heightWalk > height
        invariant height <= heightWalk <= nHeight && pindexWalk == Path()[heightWalk]
        invariant SkipsBuilt() ==> steps + Steps(heightWalk, height) == Steps(nHeight, height)
      {
        PathBelow(this, heightWalk);
        assert pindexWalk in Path() && pindexWalk.SkipOk();
        var heightSkip := GetSkipHeight(heightWalk);
        var heightSkipPrev := GetSkipHeight(heightWalk - 1);
        if pindexWalk.pskip != null &&
           (heightSkip == height ||
            (heightSkip > height && !(heightSkipPrev < heightSkip - 2 && heightSkipPrev >= height))) {
          pindexWalk := pindexWalk.pskip;
          heightWalk := heightSkip;
        } else {
          pindexWalk := pindexWalk.pprev;
          heightWalk := heightWalk - 1;
        }
        steps := steps + 1;
      }
      WalkIsPath(this, nHeight - height);
      return pindexWalk, steps;
    }

    /** Set the skip pointer from the parent's ancestors. */
    method BuildSkip()
      requires Linked() && SkipsOk()
      modifies this`pskip
      ensures SkipsOk()
      ensures pskip == if pprev == null then old(pskip) else Path()[GetSkipHeight(nHeight)]
      ensures pprev == null || old(pprev.SkipsBuilt()) ==> SkipsBuilt()
    {
      if pprev != null {
        PathBelow(this, nHeight);
        PathBelow(this, nHeight - 1);
        ghost var steps;
        var skip;
        skip, steps := pprev.GetAncestor(GetSkipHeight(nHeight));
        NotOwnAncestor(this);
        assert Path() == pprev.Path() + [this];
        pskip := skip;
      } else {
        PathLink(this, nHeight);
      }
    }
  }

  /** What the i-th block of a path knows of the path. */
  ghost predicate StepOk(path: seq<BlockIndex>, i: nat)
    requires i < |path|
  {
    && path[i].nHeight == i && path[i].ancestors == path[..i]
    && path[i].pprev == if i == 0 then null else path[i - 1]
  }

  /** Follow the parent link a number of times. */
  ghost function Walk(b: BlockIndex, steps: nat): BlockIndex?
    decreases steps
  {
    if steps == 0 then b else if b.pprev == null then null else Walk(b.pprev, steps - 1)
  }

  /** Every block on the path of a linked block is linked, along the same path. */
  lemma PathBelow(b: BlockIndex, i: nat)
    requires b.Linked() && i <= b.nHeight
    ensures var x := b.Path()[i];
            x.Linked() && x.nHeight == i && x.Path() == b.Path()[..i + 1]
            && x.pprev == if i == 0 then null else b.Path()[i - 1]
  {
    var p := b.Path();
    var x := p[i];
    assert StepOk(p, i);
    assert x.Path() == p[..i + 1];
    forall j | 0 <= j <= |x.ancestors| ensures StepOk(x.Path(), j) {
      assert StepOk(p, j);
      assert p[..i + 1][..j] == p[..j];
    }
  }

  lemma PathLink(b: BlockIndex, i: nat)
    requires b.Linked() && i <= b.nHeight
    ensures b.nHeight == |b.ancestors|
    ensures b.Path()[i].nHeight == i && b.Path()[i].pprev == if i == 0 then null else b.Path()[i - 1]
  {
    assert StepOk(b.Path(), i);
  }

  lemma LinkedChild(b: BlockIndex)
    requires b.pprev != null ==> b.pprev.Linked()
    requires b.nHeight == (if b.pprev == null then 0 else b.pprev.nHeight + 1)
    requires b.ancestors == if b.pprev == null then [] else b.pprev.Path()
    ensures b.Linked()
  {
    var p := b.Path();
    forall i | 0 <= i <= |b.ancestors| ensures StepOk(p, i) {
      if i < |b.ancestors| {
        var q := b.pprev.Path();
        assert StepOk(q, i);
        assert p[..i] == q[..i] && p[i] == q[i];
      } else {
        assert p[..i] == b.ancestors;
      }
    }
  }

  lemma {:induction false} WalkIsPath(b: BlockIndex, steps: nat)
    requires b.Linked() && steps <= b.nHeight
    ensures Walk(b, steps) == b.Path()[b.nHeight - steps]
    decreases steps
  {
    if steps > 0 {
      PathBelow(b, b.nHeight);
      PathBelow(b, b.nHeight - 1);
      WalkIsPath(b.pprev, steps - 1);
    }
  }

  lemma NotOwnAncestor(b: BlockIndex)
    requires b.Linked()
    ensures b !in b.ancestors
  {
    forall i | 0 <= i < |b.ancestors| ensures b.ancestors[i] != b {
      assert StepOk(b.Path(), i);
    }
  }

  // ------------------------------------------------------------------
  // The active chain
  // ------------------------------------------------------------------

  /** How far below the start the i-th entry of a locator lies, genesis aside. */
  function Depth(i: nat): nat {
    if i <= 11 then i else 9 + Pow(2, i - 10)
  }

  lemma DepthStep(i: nat)
    ensures Depth(i + 1) - Depth(i) == if i <= 10 then 1 else Pow(2, i - 10)
    ensures Depth(i + 1) > Depth(i)
  {
    if i >= 11 {
      PowPositive(2, i - 10);
      assert Pow(2, i - 9) == 2 * Pow(2, i - 10);
    }
    assert Pow(2, 1) == 2 && Pow(2, 0) == 1;
  }

  /** The vector is the full path of its last block. */
  ghost predicate IsPathOf(v: seq<BlockIndex?>, tip: BlockIndex) {
    tip.Linked() && v == tip.Path()
  }

  class Chain {
    var vChain: seq<BlockIndex?>

    ghost predicate Valid()
      reads this
    {
      vChain != [] ==> vChain[|vChain| - 1] != null && IsPathOf(vChain, vChain[|vChain| - 1])
    }

    constructor ()
      ensures Valid() && vChain == []
    {
      vChain := [];
    }

    function Tip(): BlockIndex?
      reads this
    {
      if vChain == [] then null else vChain[|vChain| - 1]
    }

    function Height(): int
      reads this
    {
      |vChain| - 1
    }

    function At(nHeight: int): BlockIndex?
      reads this
    {
      if nHeight < 0 || nHeight >= |vChain| then null else vChain[nHeight]
    }

    predicate Contains(b: BlockIndex)
      reads this
    {
      At(b.nHeight) == b
    }

    /** Make the chain the path of a new tip, rewriting only what differs. */
    method SetTip(tip: BlockIndex?)
      requires Valid() && (tip != null ==> tip.Linked())
      modifies this
      ensures Valid()
      ensures if tip == null then vChain == [] else IsPathOf(vChain, tip)
      ensures Tip() == tip && Height() == if tip == null then -1 else tip.nHeight
    {
      if tip == null {
        vChain := [];
        return;
      }
      hide BlockIndex.Linked, BlockIndex.Path;
      PathLink(tip, tip.nHeight);
      var pindex: BlockIndex? := tip;
      ghost var path: seq<BlockIndex?> := tip.Path();
      PathEnds(tip);
      vChain := Resize(vChain, tip.nHeight + 1);
      ghost var start := vChain;
      ghost var n: int := tip.nHeight;
      while pindex != null && vChain[pindex.nHeight] != pindex
        invariant |vChain| == |path| == |start| == tip.nHeight + 1
        invariant -1 <= n <= tip.nHeight && pindex == if n < 0 then null else path[n]
        invariant pindex != null ==> pindex.nHeight == n
        invariant forall i :: 0 <= i <= n ==> vChain[i] == start[i]
        invariant forall i :: n < i < |vChain| ==> vChain[i] == path[i]
        decreases n
      {
        PathLink(tip, n);
        if n > 0 { PathLink(tip, n - 1); }
        vChain := vChain[pindex.nHeight := pindex];
        pindex := pindex.pprev;
        n := n - 1;
      }
      if pindex != null {
        SamePrefix(old(vChain), tip, n);
      }
      assert vChain == path;
    }

    /** The last common block of the chain and a block's path, or null. */
    method FindFork(pindex: BlockIndex?) returns (r: BlockIndex?)
      requires Valid() && (pindex != null ==> pindex.Linked() && pindex.SkipsOk())
      ensures pindex == null ==> r == null
      ensures pindex != null && r != null ==> r in pindex.Path() && r in vChain
      ensures pindex != null ==>
                forall b :: b in pindex.Path() && b in vChain ==> r != null && b.nHeight <= r.nHeight
    {
      if pindex == null {
        return null;
      }
      var n: int := pindex.nHeight;
      r := pindex;
      PathBelow(pindex, n);
      if pindex.nHeight > Height() {
        ghost var steps;
        r, steps := pindex.GetAncestor(Height());
        n := Height();
        if n >= 0 { PathBelow(pindex, n); }
      }
      ghost var path := pindex.Path();
      forall i | n < i < |path| ensures path[i] !in vChain {
        PathBelow(pindex, i);
        NotContained(vChain, path[i]);
      }
      while r != null && !Contains(r)
        invariant -1 <= n <= pindex.nHeight && n < |vChain|
        invariant r == if n < 0 then null else path[n]
        invariant r != null ==> r.nHeight == n
        invariant forall i :: n < i < |path| ==> path[i] !in vChain
        decreases n
      {
        NotContained(vChain, r);
        PathBelow(pindex, n);
        if n > 0 { PathBelow(pindex, n - 1); }
        r := r.pprev;
        n := n - 1;
      }
      forall b | b in path && b in vChain ensures r != null && b.nHeight <= r.nHeight {
        AtOwnHeight(pindex, b);
      }
    }

    /** An ancestor of a block: by index if the block is in the chain, otherwise by skip pointers. */
    method LookUp(b: BlockIndex, nHeight: nat) returns (r: BlockIndex?)
      requires Valid() && b.Linked() && b.SkipsOk() && nHeight <= b.nHeight
      ensures nHeight < |b.Path()| && r == b.Path()[nHeight]
    {
      hide BlockIndex.Linked, BlockIndex.Path, BlockIndex.SkipsOk;
      PathEnds(b);
      if Contains(b) {
        SameBelow(vChain, b, nHeight);
        r := At(nHeight);
      } else {
        ghost var steps;
        r, steps := b.GetAncestor(nHeight);
      }
    }

    /** The blocks a peer is told about: close together near the start, then ever sparser. */
    method GetLocator(pindex: BlockIndex?) returns (vHave: seq<nat>)
      requires Valid()
      requires pindex != null ==> pindex.Linked() && pindex.SkipsOk()
      requires pindex == null && Tip() != null ==> Tip().Linked() && Tip().SkipsOk()
      ensures pindex != null ==> IsLocator(pindex, vHave)
      ensures pindex == null && Tip() != null ==> IsLocator(Tip(), vHave)
      ensures pindex == null && Tip() == null ==> vHave == []
    {
      hide BlockIndex.Linked, BlockIndex.Path, BlockIndex.SkipsOk, Depth;
      vHave := [];
      var walk: BlockIndex? := if pindex == null then Tip() else pindex;
      if walk == null {
        return;
      }
      ghost var start: BlockIndex := walk;
      ghost var h := start.nHeight;
      PathEnds(start);
      DepthStart();
      DepthStep(0);
      var nStep := 1;
      while true
        invariant walk != null && |start.Path()| == h + 1 == start.nHeight + 1
        invariant walk == start.Path()[LocatorHeight(h, |vHave|)] && walk.nHeight == LocatorHeight(h, |vHave|)
        invariant nStep == Depth(|vHave| + 1) - Depth(|vHave|)
        invariant forall i :: 0 <= i < |vHave| ==> Depth(i) < h && vHave[i] == start.Path()[LocatorHeight(h, i)].hash
        decreases walk.nHeight
      {
        vHave := vHave + [walk.hash];
        DepthStep(|vHave|);
        DepthStep(|vHave| - 1);
        DepthPositive(|vHave|);
        if walk.nHeight == 0 {
          break;
        }
        var nHeight := if walk.nHeight - nStep > 0 then walk.nHeight - nStep else 0;
        LocatorMove(start, walk.nHeight, nHeight);
        walk := LookUp(walk, nHeight);
        if |vHave| > 10 {
          nStep := nStep * 2;
        }
      }
    }

    /** The chain contains exactly the blocks on the way to its tip. */
    lemma ContainsIff(b: BlockIndex)
      requires Valid()
      ensures Contains(b) <==> Tip() != null && b in Tip().Path()
    {
      if vChain != [] {
        var tip: BlockIndex := vChain[|vChain| - 1];
        if b in tip.Path() {
          AtOwnHeight(tip, b);
          PathEnds(tip);
        }
      }
    }
  }

  function LocatorHeight(h: nat, i: nat): nat {
    if Depth(i) >= h then 0 else h - Depth(i)
  }

  /** The hashes of the ancestors at growing depths below the start until genesis, which is the last one. */
  ghost predicate IsLocator(start: BlockIndex, vHave: seq<nat>) {
    && vHave != []
    && Depth(|vHave| - 1) >= start.nHeight
    && (forall i :: 0 <= i < |vHave| ==>
          LocatorHeight(start.nHeight, i) < |start.Path()| && vHave[i] == start.Path()[LocatorHeight(start.nHeight, i)].hash)
    && (forall i :: 0 <= i < |vHave| - 1 ==> Depth(i) < start.nHeight)
  }

  lemma DepthStart()
    ensures Depth(0) == 0
  {
  }

  lemma DepthPositive(i: nat)
    ensures i > 0 ==> Depth(i) > 0
  {
  }

  /** A move down the locator stays on the start's path. */
  lemma LocatorMove(start: BlockIndex, from: nat, to: nat)
    requires start.Linked() && start.SkipsOk() && to <= from <= start.nHeight
    ensures var x := start.Path()[from];
            x.Linked() && x.SkipsOk() && x.nHeight == from && to < |x.Path()| && x.Path()[to] == start.Path()[to]
    ensures start.Path()[to].nHeight == to
  {
    PathBelow(start, from);
    PathBelow(start, to);
    assert forall b :: b in start.Path()[from].Path() ==> b in start.Path();
  }

  lemma SameBelow(v: seq<BlockIndex?>, b: BlockIndex, to: nat)
    requires v != [] ==> v[|v| - 1] != null && IsPathOf(v, v[|v| - 1])
    requires b.nHeight < |v| && v[b.nHeight] == b && to <= b.nHeight
    ensures to < |b.Path()| && v[to] == b.Path()[to]
  {
    var t: BlockIndex := v[|v| - 1];
    PathBelow(t, b.nHeight);
  }

  lemma {:induction false} DepthGrows(i: nat, j: nat)
    requires i < j
    ensures Depth(i) < Depth(j)
  {
    DepthStep(j - 1);
    if i < j - 1 { DepthGrows(i, j - 1); }
  }

  /** A locator descends strictly from the start, ends at genesis, and is logarithmically short. */
  lemma LocatorShape(start: BlockIndex, vHave: seq<nat>)
    requires start.Linked() && IsLocator(start, vHave)
    ensures vHave[0] == start.hash && LocatorHeight(start.nHeight, |vHave| - 1) == 0
    ensures forall i :: 0 <= i < |vHave| ==> start.Path()[LocatorHeight(start.nHeight, i)].nHeight == LocatorHeight(start.nHeight, i)
    ensures forall i, j :: 0 <= i < j < |vHave| ==> LocatorHeight(start.nHeight, i) > LocatorHeight(start.nHeight, j)
    ensures |vHave| <= 12 + Log2(start.nHeight + 1)
    ensures var h := start.nHeight; forall i :: 0 <= i < |vHave| - 2 ==>
      LocatorHeight(h, i) - LocatorHeight(h, i + 1) ==
        if i <= 10 then 1 else 2 * (LocatorHeight(h, i - 1) - LocatorHeight(h, i))
  {
    var h := start.nHeight;
    forall i | 0 <= i < |vHave| - 2
      ensures LocatorHeight(h, i) - LocatorHeight(h, i + 1) ==
                if i <= 10 then 1 else 2 * (LocatorHeight(h, i - 1) - LocatorHeight(h, i))
    {
      LocatorStep(h, i);
    }
    PathEnds(start);
    forall i | 0 <= i < |vHave| ensures start.Path()[LocatorHeight(h, i)].nHeight == LocatorHeight(h, i) {
      PathLink(start, LocatorHeight(h, i));
    }
    forall i, j | 0 <= i < j < |vHave| ensures LocatorHeight(h, i) > LocatorHeight(h, j) {
      DepthGrows(i, j);
    }
    if |vHave| > 12 {
      assert Depth(|vHave| - 2) < h;
      Log2Above(h + 1, |vHave| - 12);
    }
  }

  /** The first eleven steps go down by one, each later one by twice as much as the one before. */
  lemma LocatorStep(h: nat, i: nat)
    requires Depth(i + 1) < h
    ensures LocatorHeight(h, i) - LocatorHeight(h, i + 1) ==
              if i <= 10 then 1 else 2 * (LocatorHeight(h, i - 1) - LocatorHeight(h, i))
  {
    DepthStep(i);
    if i > 10 {
      DepthStep(i - 1);
      PowNext(2, i - 11);
    }
    hide Depth;
  }

  lemma PathEnds(b: BlockIndex)
    requires b.Linked()
    ensures |b.Path()| == b.nHeight + 1 && b.Path()[b.nHeight] == b
  {
  }

  /** std::vector::resize: cut off the end, or fill up with nulls. */
  function Resize(v: seq<BlockIndex?>, n: nat): (r: seq<BlockIndex?>)
    ensures |r| == n
    ensures forall i :: 0 <= i < n ==> r[i] == if i < |v| then v[i] else null
  {
    if n <= |v| then v[..n] else v + seq(n - |v|, _ => null)
  }

  /** Where the old chain agrees with a path at one height, it agrees below it. */
  lemma SamePrefix(v: seq<BlockIndex?>, tip: BlockIndex, n: nat)
    requires v != [] ==> v[|v| - 1] != null && IsPathOf(v, v[|v| - 1])
    requires tip.Linked() && n <= tip.nHeight && n < |v| && v[n] == tip.Path()[n]
    ensures forall i :: 0 <= i <= n ==> v[i] == tip.Path()[i]
  {
    var t: BlockIndex := v[|v| - 1];
    PathBelow(t, n);
    PathBelow(tip, n);
    assert v[..n + 1] == t.Path()[..n + 1] == tip.Path()[..n + 1];
  }

  lemma AtOwnHeight(b: BlockIndex, x: BlockIndex)
    requires b.Linked() && x in b.Path()
    ensures x.nHeight <= b.nHeight && x == b.Path()[x.nHeight]
  {
    var i :| 0 <= i < |b.Path()| && b.Path()[i] == x;
    PathBelow(b, i);
  }

  lemma NotContained(v: seq<BlockIndex?>, b: BlockIndex)
    requires v != [] ==> v[|v| - 1] != null && IsPathOf(v, v[|v| - 1])
    requires b.nHeight < |v| ==> v[b.nHeight] != b
    ensures b !in v
  {
    if b in v {
      var i :| 0 <= i < |v| && v[i] == b;
      var t: BlockIndex := v[|v| - 1];
      PathBelow(t, i);
    }
  }
}
