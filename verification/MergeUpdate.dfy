/** What merging does to attributes and reference counts. */
module MergeUpdate {
  import opened Wrappers
  import opened Tokens
  import opened CommandTree
  import opened MergeShape
  import opened MergeFork
  import opened MergeMatch
  import opened MergeReach

  function AttrLevel(a: Attr): nat {
    match a
    case Normal => 0
    case Deprecated => 1
    case Hidden => 2
  }

  function AttrAt(h: Heap, u: nat): Attr {
    if u < |h| && h[u].data.Tok? then h[u].data.token.attr else Normal
  }

  function CountAt(h: Heap, u: nat): nat {
    if u < |h| && h[u].data.Tok? then h[u].data.token.refcnt else 0
  }

  /** The node whose attribute decides for `u`: the outermost FORK around it. */
  ghost function Governor(c: Cert, u: nat): nat {
    if u < |c.ctx| && |c.ctx[u]| > 0 then c.ctx[u][0] else u
  }

  /** The attribute of old node `u` once new node `v` shares it: a more visible
      command makes the node, or the whole FORK it lies in, as visible. */
  ghost function Lowered(h: Heap, c: Cert, u: nat, v: nat): Attr {
    var mine, theirs := AttrAt(h, Governor(c, u)), AttrAt(h, Governor(c, v));
    if AttrLevel(theirs) < AttrLevel(mine) then theirs else AttrAt(h, u)
  }

  /** Normal is the most visible and hidden the least. */
  lemma LoweredExact(h: Heap, c: Cert, u: nat, v: nat)
    ensures var mine, theirs := AttrAt(h, Governor(c, u)), AttrAt(h, Governor(c, v));
            && (theirs.Normal? && !mine.Normal? ==> Lowered(h, c, u, v).Normal?)
            && (theirs.Deprecated? && mine.Hidden? ==> Lowered(h, c, u, v).Deprecated?)
            && (mine.Normal? || theirs.Hidden? || mine == theirs ==> Lowered(h, c, u, v) == AttrAt(h, u))
  {
  }

  ghost predicate MainLine(h: Heap, c: Cert, u: nat) {
    u < |c.ctx| && c.ctx[u] == [] && !IsKind(h, u, Fork)
  }

  /** From `h` to `h'`, the nodes in `g'` and not in `g` were shared: those of the
      main line, and `here`, are counted once more, and their attributes lowered. */
  ghost predicate Updated(h: Heap, h': Heap, c: Cert, here: Option<nat>, g: Nodes, g': Nodes) {
    && |h'| == |h|
    && (forall u {:trigger CountAt(h', u)} | 0 <= u < |h| ::
          CountAt(h', u) == CountAt(h, u) + (if Some(u) == here || (u in g' && u !in g && MainLine(h, c, u)) then 1 else 0))
    && (forall u {:trigger AttrAt(h', u)} | 0 <= u < |h| ::
          AttrAt(h', u) == if u in g' && u !in g then Lowered(h, c, u, g'[u]) else AttrAt(h, u))
  }

  /** The pairs in `d` are decided within `d`, and no others are. */
  ghost predicate Decided(c: Cert, d: Nodes, g': Nodes) {
    && (forall u | u in g' && u !in d :: Governor(c, u) !in d)
    && (forall u | u in g' :: Governor(c, g'[u]) !in d)
  }

  lemma UpdatedFurther(h: Heap, k: Heap, h': Heap, c: Cert, g: Nodes, d: Nodes, g': Nodes, x: nat)
    requires Updated(k, h', c, Some(x), g + d, g') && |k| == |h| && g.Keys !! d.Keys
    requires forall u | u in g + d :: u in g' && g'[u] == (g + d)[u]
    requires Shared(h, k, c, d) && forall u | 0 <= u < |h| :: IsKind(k, u, Fork) <==> IsKind(h, u, Fork)
    requires Decided(c, d, g') && (forall u | u in d :: u == x <==> MainLine(h, c, u)) && x in d
    ensures Updated(h, h', c, None, g, g')
  {
    forall u: nat | u < |h| && u in g' && u !in g + d
      ensures Lowered(k, c, u, g'[u]) == Lowered(h, c, u, g'[u])
    {
      SameAttr(h, k, c, d, Governor(c, u));
      SameAttr(h, k, c, d, Governor(c, g'[u]));
    }
  }

  lemma SameAttr(h: Heap, k: Heap, c: Cert, d: Nodes, u: nat)
    requires Shared(h, k, c, d) && u !in d
    ensures AttrAt(k, u) == AttrAt(h, u)
  {
  }

  lemma UpdatedHere(h: Heap, k: Heap, h': Heap, c: Cert, a: nat, g: Nodes, g': Nodes)
    requires Updated(k, h', c, None, g, g') && |k| == |h| && a in g
    requires CountedUp(h, k, a) && forall u | 0 <= u < |h| :: IsKind(k, u, Fork) <==> IsKind(h, u, Fork)
    ensures Updated(h, h', c, Some(a), g, g')
  {
    forall u: nat | u < |h| && u in g' && u !in g
      ensures Lowered(k, c, u, g'[u]) == Lowered(h, c, u, g'[u])
    {
    }
  }

  /** The tokens in `m` have attribute `attr` now; nothing else changed. */
  ghost predicate Painted(h: Heap, h': Heap, m: set<nat>, attr: Attr) {
    && |h'| == |h|
    && (forall u {:trigger CountAt(h', u)} | 0 <= u < |h| :: CountAt(h', u) == CountAt(h, u))
    && (forall u {:trigger AttrAt(h', u)} | 0 <= u < |h| ::
          AttrAt(h', u) == if u in m && h[u].data.Tok? then attr else AttrAt(h, u))
  }

  lemma PaintedUnion(h: Heap, k: Heap, h': Heap, m: set<nat>, n: set<nat>, attr: Attr)
    requires Painted(h, k, m, attr) && Painted(k, h', n, attr)
    requires forall u | 0 <= u < |h| && u < |k| :: k[u].data.Tok? <==> h[u].data.Tok?
    ensures Painted(h, h', m + n, attr)
  {
  }

  /** `x` is as visible as `w` now, if it was less so. */
  ghost predicate Eased(h: Heap, h': Heap, x: nat, w: nat) {
    && |h'| == |h|
    && (forall u {:trigger CountAt(h', u)} | 0 <= u < |h| :: CountAt(h', u) == CountAt(h, u))
    && (forall u {:trigger AttrAt(h', u)} | 0 <= u < |h| :: AttrAt(h', u) ==
          if u == x && AttrLevel(AttrAt(h, w)) < AttrLevel(AttrAt(h, u)) then AttrAt(h, w) else AttrAt(h, u))
  }

  /** `a` is counted once more. */
  ghost predicate CountedUp(h: Heap, h': Heap, a: nat) {
    && |h'| == |h|
    && (forall u {:trigger CountAt(h', u)} | 0 <= u < |h| :: CountAt(h', u) == CountAt(h, u) + (if u == a then 1 else 0))
    && (forall u {:trigger AttrAt(h', u)} | 0 <= u < |h| :: AttrAt(h', u) == AttrAt(h, u))
  }

  /** The pairs in `d` have lowered the attributes of their old nodes. */
  ghost predicate Shared(h: Heap, h': Heap, c: Cert, d: Nodes) {
    && |h'| == |h|
    && (forall u {:trigger CountAt(h', u)} | 0 <= u < |h| :: CountAt(h', u) == CountAt(h, u))
    && (forall u {:trigger AttrAt(h', u)} | 0 <= u < |h| ::
          AttrAt(h', u) == if u in d then Lowered(h, c, u, d[u]) else AttrAt(h, u))
  }

  /** The governors within the region of an outermost FORK. */
  lemma RegionGovernor(h: Heap, c: Cert, f: nat, u: nat)
    requires Outermost(h, c, f) && Region(h, c, f, u)
    ensures Governor(c, u) == if u == Pair(h, f) then u else f
  {
    PairFacts(h, c, f);
  }

  /** Painting a FORK and lowering its JOIN is what sharing its region means. */
  lemma ForkShared(h: Heap, k: Heap, h': Heap, c: Cert, s: Heap, x: nat, w: nat)
    requires Twins(s, c, x, w) && |s| == |h| && Pair(s, w) < |h| && Pair(s, x) < |h|
    requires forall u | 0 <= u < |h| && Region(s, c, x, u) :: h[u].data.Tok?
    requires var lower := AttrLevel(AttrAt(h, w)) < AttrLevel(AttrAt(h, x));
             Painted(h, k, if lower then Reachable(s, c, x) else {}, AttrAt(h, w))
    requires Eased(k, h', Pair(s, x), Pair(s, w))
    requires forall u | 0 <= u < |h| && Region(s, c, w, u) :: !Region(s, c, x, u)
    ensures Shared(h, h', c, RegionBack(s, c, x, w))
  {
    hide Twins, Image, Outermost, Governor, Region, Preimage;
    forall u: nat | u < |h|
      ensures AttrAt(h', u) == if u in RegionBack(s, c, x, w) then Lowered(h, c, u, RegionBack(s, c, x, w)[u]) else AttrAt(h, u)
    {
      SharedAt(h, k, h', c, s, x, w, u);
    }
  }

  lemma SharedAt(h: Heap, k: Heap, h': Heap, c: Cert, s: Heap, x: nat, w: nat, u: nat)
    requires Twins(s, c, x, w) && |s| == |h| && Pair(s, w) < |h| && Pair(s, x) < |h| && u < |h|
    requires forall u | 0 <= u < |h| && Region(s, c, x, u) :: h[u].data.Tok?
    requires var lower := AttrLevel(AttrAt(h, w)) < AttrLevel(AttrAt(h, x));
             Painted(h, k, if lower then Reachable(s, c, x) else {}, AttrAt(h, w))
    requires Eased(k, h', Pair(s, x), Pair(s, w))
    requires forall u | 0 <= u < |h| && Region(s, c, w, u) :: !Region(s, c, x, u)
    ensures AttrAt(h', u) == if u in RegionBack(s, c, x, w) then Lowered(h, c, u, RegionBack(s, c, x, w)[u]) else AttrAt(h, u)
  {
    hide Twins, Image, Outermost, Governor, Region;
    ForkWays(s, c, x, w);
    if u in RegionBack(s, c, x, w) {
      PairGovernors(s, c, x, w, u);
    }
  }

  /** The governors of a node and its partner, in the regions of equal FORKs. */
  lemma PairGovernors(s: Heap, c: Cert, x: nat, w: nat, u: nat)
    requires Twins(s, c, x, w) && Region(s, c, x, u)
    ensures var v := Preimage(s, c, x, w, u);
            && (v == Pair(s, w) <==> u == Pair(s, x))
            && Governor(c, u) == (if u == Pair(s, x) then u else x)
            && Governor(c, v) == (if u == Pair(s, x) then v else w)
  {
    var v := Preimage(s, c, x, w, u);
    RegionGovernor(s, c, x, u);
    RegionGovernor(s, c, w, v);
    ImageRelated(s, c, x, w, v);
  }

  ghost function Reachable(s: Heap, c: Cert, f: nat): set<nat>
    requires |c.ctx| == |s|
  {
    set u | 0 <= u < |s| && Region(s, c, f, u) && u != Pair(s, f)
  }
}
