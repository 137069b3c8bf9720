/** The command lines a graph derives, and that merging keeps them. */
module MergeLanguage {
  import opened Wrappers
  import opened Tokens
  import opened CommandTree
  import opened MergeShape
  import opened MergeEqual
  import opened MergeFork
  import opened MergeMatch
  import opened MergePaths
  import opened CommandMerge
  import opened CommandInstall

  /** What of a token matters to the words it takes. */
  datatype Label = Label(kind: Kind, allowRepeat: bool, text: string, min: int, max: int, varname: Option<string>)

  function LabelOf(t: Token): Label {
    Label(t.kind, t.allowRepeat, if IsSpecial(t.kind) then "" else t.text,
          if t.kind.Range? then t.min else 0, if t.kind.Range? then t.max else 0, t.varname)
  }

  lemma SameLabelExact(a: Token, b: Token)
    ensures SameLabel(a, b) <==> LabelOf(a) == LabelOf(b)
  {
  }

  predicate TakesWord(d: Data) {
    d.Tok? && !IsSpecial(d.token.kind)
  }

  /** The kinds that take words. */
  lemma TakersExact(d: Data)
    ensures TakesWord(d) <==> d.Tok? && (d.token.kind.Word? || d.token.kind.Variable? || Typed(d.token.kind))
  {
  }

  /** The labels along a path that take words. */
  ghost function Spoken(h: Heap, p: seq<nat>): seq<Label> {
    if p == [] then []
    else
      var last := p[|p| - 1];
      Spoken(h, p[..|p| - 1]) + if last < |h| && TakesWord(h[last].data) then [LabelOf(h[last].data.token)] else []
  }

  /** A node that takes a word is passed twice only if it may repeat. */
  ghost predicate NoRepeat(h: Heap, p: seq<nat>) {
    forall i, j | 0 <= i < j < |p| && p[i] == p[j] && p[i] < |h| && TakesWord(h[p[i]].data) :: h[p[i]].data.token.allowRepeat
  }

  /** The graph that starts at `s` derives the labels `ls` for the command at `y`. */
  ghost predicate Derives(h: Heap, s: nat, y: nat, ls: seq<Label>) {
    exists p :: PathTo(h, s, p, y) && NoRepeat(h, p) && Spoken(h, p) == ls
  }

  lemma {:induction false} AlikeSpoken(h: Heap, p: seq<nat>, h': Heap, q: seq<nat>)
    requires Alike(h, p, h', q)
    ensures Spoken(h, p) == Spoken(h', q)
  {
    if p != [] {
      var n := |p| - 1;
      AlikeSpoken(h, p[..n], h', q[..n]);
      assert SameData(h[p[n]].data, h'[q[n]].data);
      if h[p[n]].data.Tok? && h'[q[n]].data.Tok? {
        SameLabelExact(h[p[n]].data.token, h'[q[n]].data.token);
      }
    }
  }

  lemma AlikeNoRepeat(h: Heap, p: seq<nat>, h': Heap, q: seq<nat>)
    requires Alike(h, p, h', q) && NoRepeat(h, p)
    ensures NoRepeat(h', q)
  {
    forall i, j | 0 <= i < j < |q| && q[i] == q[j] && q[i] < |h'| && TakesWord(h'[q[i]].data)
      ensures h'[q[i]].data.token.allowRepeat
    {
      assert p[i] == p[j] && SameData(h[p[i]].data, h'[q[i]].data);
    }
  }

  lemma CorrespondsDerives(h: Heap, s: nat, h': Heap, s': nat, y: nat, ls: seq<Label>)
    requires Corresponds(h, s, h', s', y)
    ensures Derives(h, s, y, ls) <==> Derives(h', s', y, ls)
  {
    hide PathTo, Alike, NoRepeat, Spoken;
    var to, fro :| Paired(h, s, h', s', y, to, fro);
    if p :| PathTo(h, s, p, y) && NoRepeat(h, p) && Spoken(h, p) == ls {
      var q := to(p);
      AlikeSpoken(h, p, h', q);
      AlikeNoRepeat(h, p, h', q);
    }
    if q :| PathTo(h', s', q, y) && NoRepeat(h', q) && Spoken(h', q) == ls {
      var p := fro(q);
      AlikeSpoken(h', q, h, p);
      AlikeNoRepeat(h', q, h, p);
    }
  }

  // ---- what equal FORKs mean ----

  /** A path from the outermost FORK `f` to its JOIN that stays between them. */
  ghost predicate Inside(h: Heap, c: Cert, f: nat, p: seq<nat>)
    requires |c.ctx| == |h|
  {
    PathTo(h, f, p, Pair(h, f)) && forall k | 0 <= k < |p| :: Region(h, c, f, p[k])
  }

  /** The region of FORK `f` derives the labels `ls`. */
  ghost predicate ForkDerives(h: Heap, c: Cert, f: nat, ls: seq<Label>)
    requires |c.ctx| == |h|
  {
    exists p :: Inside(h, c, f, p) && NoRepeat(h, p) && Spoken(h, p) == ls
  }

  lemma TwinWay(h: Heap, c: Cert, fa: nat, fb: nat, p: nat, v: nat)
    requires Twins(h, c, fa, fb) && Region(h, c, fb, p) && Region(h, c, fb, v) && Way(h, p, v)
    ensures Way(h, Image(h, c, fa, fb, p), Image(h, c, fa, fb, v))
  {
    if v == fb {
      OwnParent(h, c, fb, p);
      ForkWayIn(h, c, fa, fb, p);
    } else {
      RegionWays(h, c, fa, fb, v, p);
    }
  }

  /** A FORK is entered from above its region. */
  lemma OwnParent(h: Heap, c: Cert, f: nat, p: nat)
    requires Outermost(h, c, f) && Region(h, c, f, p)
    ensures p != c.par[f]
  {
    assert HasParent(h, c, f) && !IsKind(h, f, Start);
    assert h[c.par[f]].to[c.pos[f]] == f;
    assert Down(h, c, c.par[f], c.pos[f], f);
    RegionBelow(h, c, f, p);
  }

  lemma TwinPath(h: Heap, c: Cert, fa: nat, fb: nat, q: seq<nat>) returns (p: seq<nat>)
    requires Twins(h, c, fa, fb) && Inside(h, c, fb, q)
    ensures Inside(h, c, fa, p) && Alike(h, q, h, p)
  {
    hide Image, Twins, SameData, Region, Way, Outermost;
    TwinsSized(h, c, fa, fb);
    p := seq(|q|, k requires 0 <= k < |q| => Image(h, c, fa, fb, q[k]));
    forall k | 0 <= k < |q|
      ensures Region(h, c, fa, p[k]) && q[k] < |h| && p[k] < |h| && SameData(h[q[k]].data, h[p[k]].data)
    {
      ImageRegion(h, c, fa, fb, q[k]);
      TwinLabel(h, c, fa, fb, q[k]);
    }
    forall k | 0 <= k < |p| - 1
      ensures Way(h, p[k], p[k + 1])
    {
      assert Way(h, q[k], q[k + 1]);
      TwinWay(h, c, fa, fb, q[k], q[k + 1]);
    }
    forall i, j | 0 <= i < |q| && 0 <= j < |q|
      ensures p[i] == p[j] <==> q[i] == q[j]
    {
      TwinSame(h, c, fa, fb, q[i], q[j]);
    }
    TwinEnds(h, c, fa, fb);
  }

  lemma TwinSame(h: Heap, c: Cert, fa: nat, fb: nat, v: nat, w: nat)
    requires Twins(h, c, fa, fb) && Region(h, c, fb, v) && Region(h, c, fb, w)
    ensures Image(h, c, fa, fb, v) == Image(h, c, fa, fb, w) <==> v == w
  {
    hide Image, Twins, Region;
    TwinsSized(h, c, fa, fb);
    if Image(h, c, fa, fb, v) == Image(h, c, fa, fb, w) {
      ImageInjective(h, c, fa, fb, v, w);
    }
  }

  lemma TwinEnds(h: Heap, c: Cert, fa: nat, fb: nat)
    requires Twins(h, c, fa, fb)
    ensures Region(h, c, fb, fb) && Image(h, c, fa, fb, fb) == fa
    ensures Region(h, c, fb, Pair(h, fb)) && Image(h, c, fa, fb, Pair(h, fb)) == Pair(h, fa)
  {
    ForkWays(h, c, fa, fb);
  }

  lemma TwinsSized(h: Heap, c: Cert, fa: nat, fb: nat)
    requires Twins(h, c, fa, fb)
    ensures |c.ctx| == |h| && Outermost(h, c, fa) && Outermost(h, c, fb)
  {
  }

  lemma TwinLabel(h: Heap, c: Cert, fa: nat, fb: nat, v: nat)
    requires Twins(h, c, fa, fb) && Region(h, c, fb, v)
    ensures v < |h| && Image(h, c, fa, fb, v) < |h|
    ensures SameData(h[v].data, h[Image(h, c, fa, fb, v)].data) && SameData(h[Image(h, c, fa, fb, v)].data, h[v].data)
  {
    ImageRelated(h, c, fa, fb, v);
  }

  lemma TwinPathBack(h: Heap, c: Cert, fa: nat, fb: nat, p: seq<nat>) returns (q: seq<nat>)
    requires Twins(h, c, fa, fb) && Inside(h, c, fa, p)
    ensures Inside(h, c, fb, q) && Alike(h, p, h, q)
  {
    hide Image, Twins, SameData, Region, Preimage, Way, Outermost;
    TwinsSized(h, c, fa, fb);
    q := seq(|p|, k requires 0 <= k < |p| => Preimage(h, c, fa, fb, p[k]));
    forall k | 0 <= k < |p|
      ensures Region(h, c, fb, q[k]) && p[k] < |h| && q[k] < |h| && SameData(h[p[k]].data, h[q[k]].data)
      ensures Image(h, c, fa, fb, q[k]) == p[k]
    {
      TwinLabel(h, c, fa, fb, q[k]);
    }
    forall k | 0 <= k < |q| - 1
      ensures Way(h, q[k], q[k + 1])
    {
      assert Way(h, p[k], p[k + 1]);
      TwinWayBack(h, c, fa, fb, p[k], p[k + 1]);
    }
    ForkWays(h, c, fa, fb);
  }

  lemma TwinWayBack(h: Heap, c: Cert, fa: nat, fb: nat, p: nat, u: nat)
    requires Twins(h, c, fa, fb) && Region(h, c, fa, p) && Region(h, c, fa, u) && Way(h, p, u)
    ensures Way(h, Preimage(h, c, fa, fb, p), Preimage(h, c, fa, fb, u))
  {
    if u == fa {
      OwnParent(h, c, fa, p);
      WaysIn(h, c, fa, p);
      ForkWays(h, c, fa, fb);
    } else {
      RegionWaysBack(h, c, fa, fb, u, p);
    }
  }

  /** FORKs that compare equal derive the same labels. */
  lemma EqualForksDeriveTheSame(h: Heap, c: Cert, fa: nat, fb: nat, ls: seq<Label>)
    requires Twins(h, c, fa, fb)
    ensures |c.ctx| == |h| && (ForkDerives(h, c, fa, ls) <==> ForkDerives(h, c, fb, ls))
  {
    assert |c.ctx| == |h|;
    hide Twins, Inside, Alike, NoRepeat, Spoken;
    if ForkDerives(h, c, fb, ls) {
      var q :| Inside(h, c, fb, q) && NoRepeat(h, q) && Spoken(h, q) == ls;
      var p := TwinPath(h, c, fa, fb, q);
      AlikeSpoken(h, q, h, p);
      AlikeNoRepeat(h, q, h, p);
    }
    if ForkDerives(h, c, fa, ls) {
      var p :| Inside(h, c, fa, p) && NoRepeat(h, p) && Spoken(h, p) == ls;
      var q := TwinPathBack(h, c, fa, fb, p);
      AlikeSpoken(h, p, h, q);
      AlikeNoRepeat(h, p, h, q);
    }
  }

  /** Installing commands changes no command's lines: the merged graph derives for it
      exactly what its own graph derived. */
  lemma InstalledLanguage(h0: Heap, c0: Cert, h: Heap, c: Cert, so: nat, starts: seq<nat>, n: nat, y: nat, ls: seq<Label>)
    requires n <= |starts| && Installed(h0, c0, h, c, so, starts, n) && y < |h0| && h0[y].data.Cmd?
    ensures y < |c.root| && y < |c0.root|
    ensures Derives(h, c.root[y], y, ls) <==> Derives(h0, c0.root[y], y, ls)
  {
    hide Derives, Corresponds, Shape;
    assert Corresponds(h, c.root[y], h0, c0.root[y], y);
    CorrespondsDerives(h, c.root[y], h0, c0.root[y], y, ls);
  }
}
