/** Visual duplicates in the images folder: images whose perceptual hashes
    differ in at most eight bits are put in one cluster by a union-find over
    the image positions, with path compression in `find`; clusters of two or
    more files with at least two different stems are reported. The hashes
    are given with the listing. */
module VisualDuplicates {
  import opened Wrappers
  import opened BlogImages
  import opened ImageFinders

  /** A perceptual hash: 64 bits. */
  type Hash = h: seq<bool> | |h| == 64 witness seq(64, _ => false)

  /** An entry of the folder with its perceptual hash; `None` when the image
      could not be read. */
  datatype PictureFile = PictureFile(name: string, isFile: bool, phash: Option<Hash>)

  /** Hashes that differ in at most this many bits count as the same picture. */
  const HashDistanceThreshold := 8

  /** The number of positions at which two hashes differ. */
  function Hamming(a: seq<bool>, b: seq<bool>): (d: nat)
    requires |a| == |b|
    ensures d <= |a|
    decreases |a|
  {
    if |a| == 0 then 0
    else (if a[0] != b[0] then 1 else 0) + Hamming(a[1..], b[1..])
  }

  /** The distance is symmetric and zero exactly between equal hashes. */
  lemma {:induction false} HammingProperties(a: seq<bool>, b: seq<bool>)
    requires |a| == |b|
    ensures Hamming(a, b) == Hamming(b, a)
    ensures Hamming(a, b) == 0 <==> a == b
    decreases |a|
  {
    if |a| > 0 {
      HammingProperties(a[1..], b[1..]);
      assert a == [a[0]] + a[1..] && b == [b[0]] + b[1..];
    }
  }

  // ------------------------------------------------------ the union-find

  /** The three sequences have one entry per image and point inside it. */
  ghost predicate Sized(parent: seq<nat>, root: seq<nat>, depth: seq<nat>)
  {
    |root| == |parent| && |depth| == |parent| &&
    forall i | 0 <= i < |parent| :: parent[i] < |parent| && root[i] < |parent|
  }

  /** A position is its own parent exactly when it is its own root. */
  ghost predicate RootsSelfParented(parent: seq<nat>, root: seq<nat>, depth: seq<nat>)
    requires Sized(parent, root, depth)
  {
    forall i | 0 <= i < |parent| :: parent[i] == i <==> root[i] == i
  }

  /** A position and its parent lead to the same root. */
  ghost predicate ParentSharesRoot(parent: seq<nat>, root: seq<nat>, depth: seq<nat>)
    requires Sized(parent, root, depth)
  {
    forall i | 0 <= i < |parent| :: root[parent[i]] == root[i]
  }

  /** Every root is its own parent. */
  ghost predicate RootsAreRoots(parent: seq<nat>, root: seq<nat>, depth: seq<nat>)
    requires Sized(parent, root, depth)
  {
    forall i | 0 <= i < |parent| :: parent[root[i]] == root[i]
  }

  /** The depth strictly decreases from a non-root to its parent and to its root. */
  ghost predicate DepthDecreases(parent: seq<nat>, root: seq<nat>, depth: seq<nat>)
    requires Sized(parent, root, depth)
  {
    forall i | 0 <= i < |parent| && parent[i] != i :: depth[parent[i]] < depth[i] && depth[root[i]] < depth[i]
  }

  /** The state of the parent array, with the root each position leads to
      and a depth that strictly decreases along every parent link. */
  ghost predicate Forest(parent: seq<nat>, root: seq<nat>, depth: seq<nat>)
  {
    Sized(parent, root, depth) &&
    RootsSelfParented(parent, root, depth) &&
    ParentSharesRoot(parent, root, depth) &&
    RootsAreRoots(parent, root, depth) &&
    DepthDecreases(parent, root, depth)
  }

  /** The roots after the class of root `a` is joined to root `b`. */
  function Merge(root: seq<nat>, a: nat, b: nat): (r: seq<nat>)
    ensures |r| == |root|
    ensures forall i | 0 <= i < |root| :: r[i] == if root[i] == a then b else root[i]
  {
    seq(|root|, i requires 0 <= i < |root| => if root[i] == a then b else root[i])
  }

  /** The root of a root is itself. */
  lemma RootOfRoot(parent: seq<nat>, root: seq<nat>, depth: seq<nat>, i: nat)
    requires Forest(parent, root, depth) && i < |parent|
    ensures root[root[i]] == root[i] && parent[root[i]] == root[i]
  {
    assert parent[root[i]] == root[i];
  }

  /** Pointing a non-root straight at its root keeps the forest. */
  lemma Compress(parent: seq<nat>, root: seq<nat>, depth: seq<nat>, x: nat)
    requires Forest(parent, root, depth) && x < |parent| && parent[x] != x
    ensures Forest(parent[x := root[x]], root, depth)
  {
    var p := parent[x := root[x]];
    RootOfRoot(parent, root, depth, x);
    assert root[x] != x && depth[root[x]] < depth[x];
    assert Sized(p, root, depth);
    forall i | 0 <= i < |p|
      ensures p[i] == i <==> root[i] == i
      ensures root[p[i]] == root[i]
      ensures p[root[i]] == root[i]
      ensures p[i] != i ==> depth[p[i]] < depth[i] && depth[root[i]] < depth[i]
    {
      RootOfRoot(parent, root, depth, i);
      assert (parent[i] == i <==> root[i] == i) && root[parent[i]] == root[i];
      assert parent[i] != i ==> depth[parent[i]] < depth[i] && depth[root[i]] < depth[i];
      CompressAt(parent, root, depth, x, i);
    }
  }

  /** The forest facts at one position survive pointing `x` at its root. */
  lemma CompressAt(parent: seq<nat>, root: seq<nat>, depth: seq<nat>, x: nat, i: nat)
    requires Sized(parent, root, depth) && x < |parent| && i < |parent|
    requires root[x] != x && root[root[x]] == root[x] && parent[root[x]] == root[x] && depth[root[x]] < depth[x]
    requires (parent[i] == i <==> root[i] == i) && root[parent[i]] == root[i]
    requires parent[root[i]] == root[i] && root[root[i]] == root[i]
    requires parent[i] != i ==> depth[parent[i]] < depth[i] && depth[root[i]] < depth[i]
    ensures var p := parent[x := root[x]];
      (p[i] == i <==> root[i] == i) && root[p[i]] == root[i] && p[root[i]] == root[i] &&
      (p[i] != i ==> depth[p[i]] < depth[i] && depth[root[i]] < depth[i])
  {
  }

  /** Linking one root below another keeps the forest when the depths of
      the linked class are raised above the new root's. */
  lemma Link(parent: seq<nat>, root: seq<nat>, depth: seq<nat>, a: nat, b: nat)
    requires Forest(parent, root, depth) && a < |parent| && b < |parent|
    requires root[a] == a && root[b] == b && a != b
    ensures Forest(parent[a := b], Merge(root, a, b), Lifted(depth, root, a, depth[b] + 1))
  {
    var p := parent[a := b];
    var r := Merge(root, a, b);
    var d := Lifted(depth, root, a, depth[b] + 1);
    assert Sized(p, r, d);
    LinkRoots(parent, root, depth, a, b);
    LinkDepths(parent, root, depth, a, b);
  }

  lemma LinkRoots(parent: seq<nat>, root: seq<nat>, depth: seq<nat>, a: nat, b: nat)
    requires Forest(parent, root, depth) && a < |parent| && b < |parent|
    requires root[a] == a && root[b] == b && a != b
    requires Sized(parent[a := b], Merge(root, a, b), Lifted(depth, root, a, depth[b] + 1))
    ensures RootsSelfParented(parent[a := b], Merge(root, a, b), Lifted(depth, root, a, depth[b] + 1))
    ensures ParentSharesRoot(parent[a := b], Merge(root, a, b), Lifted(depth, root, a, depth[b] + 1))
    ensures RootsAreRoots(parent[a := b], Merge(root, a, b), Lifted(depth, root, a, depth[b] + 1))
  {
    var p := parent[a := b];
    var r := Merge(root, a, b);
    assert parent[a] == a && parent[b] == b;
    forall i | 0 <= i < |p|
      ensures p[i] == i <==> r[i] == i
      ensures r[p[i]] == r[i]
      ensures p[r[i]] == r[i]
    {
      assert root[parent[i]] == root[i];
      RootOfRoot(parent, root, depth, i);
    }
  }

  lemma LinkDepths(parent: seq<nat>, root: seq<nat>, depth: seq<nat>, a: nat, b: nat)
    requires Forest(parent, root, depth) && a < |parent| && b < |parent|
    requires root[a] == a && root[b] == b && a != b
    requires Sized(parent[a := b], Merge(root, a, b), Lifted(depth, root, a, depth[b] + 1))
    ensures DepthDecreases(parent[a := b], Merge(root, a, b), Lifted(depth, root, a, depth[b] + 1))
  {
    var p := parent[a := b];
    var r := Merge(root, a, b);
    var d := Lifted(depth, root, a, depth[b] + 1);
    forall i | 0 <= i < |p| && p[i] != i
      ensures d[p[i]] < d[i] && d[r[i]] < d[i]
    {
      RootOfRoot(parent, root, depth, i);
      if i == a {
        LiftedAt(depth, root, a, b, depth[b] + 1, a, b);
      } else {
        assert root[parent[i]] == root[i] && depth[parent[i]] < depth[i] && depth[root[i]] < depth[i];
        LiftedAt(depth, root, a, b, depth[b] + 1, i, parent[i]);
      }
    }
  }

  /** A link from `i` to `j` inside one class stays downhill when the class
      of `a` is lifted by `k`, and so does the link from `i` to its new root. */
  lemma LiftedAt(depth: seq<nat>, root: seq<nat>, a: nat, b: nat, k: nat, i: nat, j: nat)
    requires |root| == |depth| && i < |depth| && j < |depth| && b < |depth| && root[i] < |depth|
    requires root[root[i]] == root[i] && root[b] == b && b != a && k == depth[b] + 1
    requires root[j] == root[i] || (i == a && j == b && root[a] == a)
    requires root[j] == root[i] ==> depth[j] < depth[i] && depth[root[i]] < depth[i]
    ensures Lifted(depth, root, a, k)[j] < Lifted(depth, root, a, k)[i]
    ensures Lifted(depth, root, a, k)[Merge(root, a, b)[i]] < Lifted(depth, root, a, k)[i]
  {
  }

  /** The depths with those of the class of root `a` raised by `k`. */
  function Lifted(depth: seq<nat>, root: seq<nat>, a: nat, k: nat): (d: seq<nat>)
    requires |root| == |depth|
    ensures |d| == |depth|
    ensures forall i | 0 <= i < |depth| :: d[i] == if root[i] == a then depth[i] + k else depth[i]
  {
    seq(|depth|, i requires 0 <= i < |depth| => if root[i] == a then depth[i] + k else depth[i])
  }

  /** `parent` with the roots it leads to. */
  class UnionFind {
    const parent: array<nat>
    ghost var root: seq<nat>
    ghost var depth: seq<nat>

    ghost predicate Valid()
      reads this, parent
    {
      Forest(parent[..], root, depth)
    }

    /** `parent = list(range(n))`: every position its own root. */
    constructor (n: nat)
      ensures Valid() && parent.Length == n && fresh(parent)
      ensures root == seq(n, i requires 0 <= i < n => i)
    {
      parent := new nat[n](i requires 0 <= i < n => i);
      root := seq(n, i requires 0 <= i < n => i);
      depth := seq(n, _ => 0);
    }

    /** `find`: the root of `x`; every position on the way is pointed
        straight at it. The classes do not change. */
    method Find(x: nat) returns (r: nat)
      requires Valid() && x < parent.Length
      modifies parent
      ensures Valid() && r == root[x]
      decreases depth[x]
    {
      if parent[x] != x {
        var p := Find(parent[x]);
        ghost var before := parent[..];
        Compress(before, root, depth, x);
        parent[x] := p;
        assert parent[..] == before[x := root[x]];
      }
      r := parent[x];
    }

    /** `union`: the class of `x` joins the class of `y`. */
    method Union(x: nat, y: nat)
      requires Valid() && x < parent.Length && y < parent.Length
      modifies this, parent
      ensures Valid()
      ensures root == Merge(old(root), old(root)[x], old(root)[y])
    {
      var px := Find(x);
      var py := Find(y);
      if px != py {
        RootOfRoot(parent[..], root, depth, x);
        RootOfRoot(parent[..], root, depth, y);
        Attach(px, py);
      } else {
        assert root == Merge(root, px, py);
      }
    }

    /** `parent[px] = py` for two different roots. */
    method Attach(px: nat, py: nat)
      requires Valid() && px < parent.Length && py < parent.Length
      requires root[px] == px && root[py] == py && px != py
      modifies this, parent
      ensures Valid() && root == Merge(old(root), px, py)
    {
      ghost var before := parent[..];
      Link(before, root, depth, px, py);
      parent[px] := py;
      assert parent[..] == before[px := py];
      depth := Lifted(depth, root, px, depth[py] + 1);
      root := Merge(root, px, py);
    }
  }

  // ------------------------------------------------------ clustering

  /** The images `find_visual_duplicates` hashes: regular files with an image
      suffix, not ignored, whose hash could be computed; with their names. */
  function Hashed(listing: seq<PictureFile>): (r: seq<(Hash, string)>)
    decreases |listing|
  {
    if |listing| == 0 then []
    else
      var f := listing[|listing| - 1];
      var init := Hashed(listing[..|listing| - 1]);
      if Hashable(f) then init + [Entry(f)]
      else init
  }

  predicate Close(images: seq<(Hash, string)>, p: int, q: int)
    requires 0 <= p < |images| && 0 <= q < |images|
  {
    Hamming(images[p].0, images[q].0) <= HashDistanceThreshold
  }

  /** A labelling of the images that gives close images the same tag. */
  ghost predicate Respects(images: seq<(Hash, string)>, tag: seq<nat>)
  {
    |tag| == |images| &&
    forall p, q | 0 <= p < |images| && 0 <= q < |images| && Close(images, p, q) :: tag[p] == tag[q]
  }

  /** `roots` never puts together two images that `tag` keeps apart. */
  ghost predicate Finer(roots: seq<nat>, tag: seq<nat>)
    requires |roots| == |tag|
  {
    forall p, q | 0 <= p < |roots| && 0 <= q < |roots| && roots[p] == roots[q] :: tag[p] == tag[q]
  }

  /** The clusters after the pairs before `(i, j)` were compared: close pairs
      among them share a root, and only what every labelling that respects
      closeness keeps together shares one. */
  ghost predicate ClusteredUpTo(images: seq<(Hash, string)>, roots: seq<nat>, i: int, j: int)
    requires |roots| == |images|
  {
    (forall p, q | 0 <= p < i && p < q < |images| && Close(images, p, q) :: roots[p] == roots[q]) &&
    (forall q | i < q < j && 0 <= i < |images| && q < |images| && Close(images, i, q) :: roots[i] == roots[q]) &&
    (forall tag | Respects(images, tag) :: Finer(roots, tag))
  }

  /** Joining the classes of two close images keeps every earlier joining
      and keeps the clusters no coarser than closeness forces. */
  lemma MergeClose(images: seq<(Hash, string)>, roots: seq<nat>, i: int, j: int)
    requires |roots| == |images| && 0 <= i < j < |images|
    requires ClusteredUpTo(images, roots, i, j)
    requires Close(images, i, j)
    ensures ClusteredUpTo(images, Merge(roots, roots[i], roots[j]), i, j + 1)
  {
    var m := Merge(roots, roots[i], roots[j]);
    forall tag | Respects(images, tag)
      ensures Finer(m, tag)
    {
      assert Finer(roots, tag);
      assert tag[i] == tag[j];
      forall p, q | 0 <= p < |m| && 0 <= q < |m| && m[p] == m[q]
        ensures tag[p] == tag[q]
      {
        if roots[p] == roots[i] {
          assert tag[p] == tag[i];
        }
        if roots[q] == roots[i] {
          assert tag[q] == tag[i];
        }
      }
    }
  }

  /** The roots do not change when two images are not close. */
  lemma SkipFar(images: seq<(Hash, string)>, roots: seq<nat>, i: int, j: int)
    requires |roots| == |images| && 0 <= i < j < |images|
    requires ClusteredUpTo(images, roots, i, j)
    requires !Close(images, i, j)
    ensures ClusteredUpTo(images, roots, i, j + 1)
  {
  }

  /** Moving on to the next image once it has been compared with every
      later one. */
  lemma NextRow(images: seq<(Hash, string)>, roots: seq<nat>, i: int)
    requires |roots| == |images| && 0 <= i < |images|
    requires ClusteredUpTo(images, roots, i, |images|)
    ensures ClusteredUpTo(images, roots, i + 1, i + 2)
  {
  }

  /** After all pairs are compared, close images share a root, in either
      order. */
  lemma AllCompared(images: seq<(Hash, string)>, roots: seq<nat>)
    requires |roots| == |images|
    requires ClusteredUpTo(images, roots, |images|, |images| + 1)
    ensures Respects(images, roots)
    ensures forall tag | Respects(images, tag) :: Finer(roots, tag)
  {
    forall p, q | 0 <= p < |images| && 0 <= q < |images| && Close(images, p, q)
      ensures roots[p] == roots[q]
    {
      HammingProperties(images[p].0, images[q].0);
    }
  }

  /** The pairwise loop: every pair of images is compared once and close
      pairs are joined. The resulting classes are exactly the connected
      groups of the "close" relation: close images share a root, and any
      labelling that gives close images one tag gives one tag to each
      class. */
  method ClusterAll(images: seq<(Hash, string)>, uf: UnionFind)
    requires uf.Valid() && uf.parent.Length == |images|
    requires forall p | 0 <= p < |images| :: uf.root[p] == p
    modifies uf, uf.parent
    ensures uf.Valid() && |uf.root| == |images|
    ensures Respects(images, uf.root)
    ensures forall tag | Respects(images, tag) :: Finer(uf.root, tag)
  {
    var n := |images|;
    assert ClusteredUpTo(images, uf.root, 0, 1) by {
      forall tag | Respects(images, tag)
        ensures Finer(uf.root, tag)
      {
      }
    }
    for i := 0 to n
      invariant uf.Valid() && uf.parent.Length == n
      invariant ClusteredUpTo(images, uf.root, i, i + 1)
    {
      for j := i + 1 to n
        invariant uf.Valid() && uf.parent.Length == n
        invariant ClusteredUpTo(images, uf.root, i, j)
      {
        var distance := Hamming(images[i].0, images[j].0);
        if distance <= HashDistanceThreshold {
          MergeClose(images, uf.root, i, j);
          uf.Union(i, j);
        } else {
          SkipFar(images, uf.root, i, j);
        }
      }
      NextRow(images, uf.root, i);
    }
    AllCompared(images, uf.root);
  }

  // ------------------------------------------------------ scanning

  /** The scan loop: one hash per readable image file that is not ignored,
      in listing order; a file whose image cannot be opened is skipped. */
  method HashImages(listing: seq<PictureFile>) returns (images: seq<(Hash, string)>)
    ensures images == Hashed(listing)
  {
    images := [];
    for i := 0 to |listing|
      invariant images == Hashed(listing[..i])
    {
      var f := listing[i];
      assert listing[..i + 1][..i] == listing[..i];
      if !f.isFile || !IsImageName(f.name) || f.name in IgnoredFiles {
        continue;
      }
      match f.phash {
        case Some(h) => images := images + [(h, f.name)];
        case None =>
      }
    }
    assert listing[..|listing|] == listing;
  }

  /** The files `find_visual_duplicates` hashes. */
  predicate Hashable(f: PictureFile)
  {
    f.isFile && IsImageName(f.name) && f.name !in IgnoredFiles && f.phash.Some?
  }

  /** The pair the scan keeps for a hashable file. */
  function Entry(f: PictureFile): (Hash, string)
    requires f.phash.Some?
  {
    (f.phash.value, f.name)
  }

  /** Every hashed image comes from a hashable file of the listing: `j` is
      the position of the file the `k`-th hashed image comes from. */
  lemma {:induction false} HashedFrom(listing: seq<PictureFile>, k: nat) returns (j: nat)
    requires k < |Hashed(listing)|
    ensures j < |listing| && Hashable(listing[j]) && Hashed(listing)[k] == Entry(listing[j])
    decreases |listing|
  {
    var n := |listing| - 1;
    var init := listing[..n];
    if k < |Hashed(init)| {
      j := HashedFrom(init, k);
    } else {
      j := n;
    }
  }

  /** Every hashable file of the listing is hashed. */
  lemma {:induction false} HashedComplete(listing: seq<PictureFile>)
    ensures forall f | f in listing && Hashable(f) :: Entry(f) in Hashed(listing)
    decreases |listing|
  {
    if |listing| > 0 {
      var init := listing[..|listing| - 1];
      HashedComplete(init);
      assert forall f | f in listing :: f in init || f == listing[|listing| - 1];
    }
  }

  // ------------------------------------------------------ grouping

  /** The names of the images whose root in `roots` is `r`, in order. */
  function Members(images: seq<(Hash, string)>, roots: seq<nat>, r: nat): (m: seq<string>)
    requires |roots| <= |images|
    ensures |m| <= |roots|
    decreases |roots|
  {
    if |roots| == 0 then []
    else
      var k := |roots| - 1;
      Members(images, roots[..k], r) + (if roots[k] == r then [images[k].1] else [])
  }

  /** The roots in the order a first image reaches them. */
  function FirstSeen(roots: seq<nat>): (keys: seq<nat>)
    ensures forall r :: r in keys <==> r in roots
    ensures forall p, q | 0 <= p < q < |keys| :: keys[p] != keys[q]
    decreases |roots|
  {
    if |roots| == 0 then []
    else
      var init := FirstSeen(roots[..|roots| - 1]);
      var r := roots[|roots| - 1];
      assert forall x :: x in roots <==> x in roots[..|roots| - 1] || x == r;
      if r in init then init else init + [r]
  }

  /** The groups in the order their roots were first seen: `groups.values()`. */
  function Clusters(images: seq<(Hash, string)>, roots: seq<nat>, keys: seq<nat>): (gs: seq<seq<string>>)
    requires |roots| <= |images|
    ensures |gs| == |keys|
    ensures forall k | 0 <= k < |keys| :: gs[k] == Members(images, roots, keys[k])
    decreases |keys|
  {
    if |keys| == 0 then []
    else Clusters(images, roots, keys[..|keys| - 1]) + [Members(images, roots, keys[|keys| - 1])]
  }

  /** The stems of a group's files. */
  function Stems(files: seq<string>): set<string>
  {
    set f | f in files :: Stem(f)
  }

  /** A group is reported when it holds more than one file and not all of
      them share a stem. */
  predicate IsReported(files: seq<string>)
  {
    |files| > 1 && |Stems(files)| > 1
  }

  /** The reported groups, in order. */
  function KeepReported(gs: seq<seq<string>>): seq<seq<string>>
    decreases |gs|
  {
    if |gs| == 0 then []
    else KeepReported(gs[..|gs| - 1]) + (if IsReported(gs[|gs| - 1]) then [gs[|gs| - 1]] else [])
  }

  /** What `find_visual_duplicates` returns for the given clustering. */
  function Reported(images: seq<(Hash, string)>, roots: seq<nat>): seq<seq<string>>
    requires |roots| <= |images|
  {
    KeepReported(Clusters(images, roots, FirstSeen(roots)))
  }

  lemma SliceStep<T>(s: seq<T>, i: nat)
    requires i < |s|
    ensures s[..i + 1] == s[..i] + [s[i]]
  {
  }

  /** `groups` and `order` as the collecting loop leaves them after the
      images whose roots are `rs`. */
  ghost predicate Grouped(images: seq<(Hash, string)>, rs: seq<nat>, groups: map<nat, seq<string>>, order: seq<nat>)
    requires |rs| <= |images|
  {
    order == FirstSeen(rs) &&
    (forall r :: r in groups <==> r in order) &&
    (forall r | r in groups :: groups[r] == Members(images, rs, r))
  }

  /** One step of the collecting loop for an image with root `x`. */
  lemma GroupAdd(images: seq<(Hash, string)>, rs: seq<nat>, x: nat, groups: map<nat, seq<string>>, order: seq<nat>,
                 g1: map<nat, seq<string>>, o1: seq<nat>, g2: map<nat, seq<string>>)
    requires |rs| < |images| && Grouped(images, rs, groups, order)
    requires g1 == (if x in groups then groups else groups[x := []])
    requires o1 == (if x in groups then order else order + [x])
    requires g2 == g1[x := g1[x] + [images[|rs|].1]]
    ensures Grouped(images, rs + [x], g2, o1)
  {
    var rs1 := rs + [x];
    assert rs1[..|rs|] == rs;
    if x !in groups {
      assert x !in rs;
      MembersOfAbsent(images, rs, x);
    }
    forall r | r in g2
      ensures g2[r] == Members(images, rs1, r)
    {
    }
  }

  /** The collecting loop: `groups[root]` holds the images whose root is
      `root`, in order, and the roots are kept in the order first seen. */
  method CollectGroups(images: seq<(Hash, string)>, uf: UnionFind) returns (groups: map<nat, seq<string>>, order: seq<nat>)
    requires uf.Valid() && uf.parent.Length == |images|
    modifies uf.parent
    ensures uf.Valid() && |uf.root| == |images|
    ensures Grouped(images, uf.root, groups, order)
  {
    groups := map[];
    order := [];
    ghost var roots := uf.root;
    for i := 0 to |images|
      invariant uf.Valid() && uf.parent.Length == |images| && uf.root == roots && |roots| == |images|
      invariant Grouped(images, roots[..i], groups, order)
    {
      var root := uf.Find(i);
      SliceStep(roots, i);
      ghost var g0 := groups;
      ghost var o0 := order;
      if root !in groups {
        groups := groups[root := []];
        order := order + [root];
      }
      groups := groups[root := groups[root] + [images[i].1]];
      GroupAdd(images, roots[..i], root, g0, o0, if root in g0 then g0 else g0[root := []], order, groups);
    }
    assert roots[..|images|] == roots;
  }

  /** The filtering loop over the groups in order. */
  method FilterGroups(groups: map<nat, seq<string>>, order: seq<nat>) returns (duplicates: seq<seq<string>>)
    requires forall r | r in order :: r in groups
    ensures duplicates == KeepReported(GroupList(groups, order))
  {
    duplicates := [];
    for k := 0 to |order|
      invariant duplicates == KeepReported(GroupList(groups, order[..k]))
    {
      assert order[..k + 1][..k] == order[..k];
      var files := groups[order[k]];
      if |files| > 1 {
        var stems := Stems(files);
        if |stems| > 1 {
          duplicates := duplicates + [files];
        }
      }
    }
    assert order[..|order|] == order;
  }

  /** The groups of `order`, looked up in `groups`. */
  function GroupList(groups: map<nat, seq<string>>, order: seq<nat>): (gs: seq<seq<string>>)
    requires forall r | r in order :: r in groups
    ensures |gs| == |order|
    ensures forall k | 0 <= k < |order| :: gs[k] == groups[order[k]]
    decreases |order|
  {
    if |order| == 0 then []
    else GroupList(groups, order[..|order| - 1]) + [groups[order[|order| - 1]]]
  }

  /** `find_visual_duplicates`: nothing without the hashing library;
      otherwise hash, cluster every pair, collect and filter. `roots` is the
      final clustering: close images share a root, and images share a root
      only when every labelling that keeps close images together does. */
  method FindVisualDuplicates(hashingAvailable: bool, listing: seq<PictureFile>)
    returns (duplicates: seq<seq<string>>, ghost roots: seq<nat>)
    ensures !hashingAvailable ==> duplicates == []
    ensures hashingAvailable ==>
      |roots| == |Hashed(listing)| &&
      Respects(Hashed(listing), roots) &&
      (forall tag | Respects(Hashed(listing), tag) :: Finer(roots, tag)) &&
      duplicates == Reported(Hashed(listing), roots)
  {
    if !hashingAvailable {
      return [], [];
    }
    var images := HashImages(listing);
    var uf := new UnionFind(|images|);
    ClusterAll(images, uf);
    var groups, order := CollectGroups(images, uf);
    roots := uf.root;
    GroupListIsClusters(images, roots, groups, order);
    duplicates := FilterGroups(groups, order);
  }

  /** The groups the collecting loop leaves, in key order, are the clusters. */
  lemma GroupListIsClusters(images: seq<(Hash, string)>, roots: seq<nat>, groups: map<nat, seq<string>>, order: seq<nat>)
    requires |roots| <= |images| && Grouped(images, roots, groups, order)
    ensures forall r | r in order :: r in groups
    ensures GroupList(groups, order) == Clusters(images, roots, FirstSeen(roots))
  {
  }

  // ------------------------------------------------------ what is reported

  /** The reported groups are exactly the groups of more than one file with
      more than one stem, in order. */
  lemma {:induction false} KeepReportedSpec(gs: seq<seq<string>>)
    ensures forall g | g in KeepReported(gs) :: g in gs && |g| > 1 && |Stems(g)| > 1
    ensures forall g | g in gs && IsReported(g) :: g in KeepReported(gs)
    decreases |gs|
  {
    if |gs| > 0 {
      var init := gs[..|gs| - 1];
      KeepReportedSpec(init);
      assert forall g | g in gs :: g in init || g == gs[|gs| - 1];
    }
  }

  /** No image is in a group of its root that lacks it: the members of a
      root that no image has are none. */
  lemma {:induction false} MembersOfAbsent(images: seq<(Hash, string)>, roots: seq<nat>, r: nat)
    requires |roots| <= |images| && r !in roots
    ensures Members(images, roots, r) == []
    decreases |roots|
  {
    if |roots| > 0 {
      MembersOfAbsent(images, roots[..|roots| - 1], r);
    }
  }

  /** The sizes of the groups of `keys`, added up. */
  function SizeSum(images: seq<(Hash, string)>, roots: seq<nat>, keys: seq<nat>): nat
    requires |roots| <= |images|
    decreases |keys|
  {
    if |keys| == 0 then 0
    else SizeSum(images, roots, keys[..|keys| - 1]) + |Members(images, roots, keys[|keys| - 1])|
  }

  /** One more image adds one to the sum of the group sizes when its root is
      among the keys, and nothing otherwise. */
  lemma {:induction false} SizeSumGrow(images: seq<(Hash, string)>, roots: seq<nat>, x: nat, keys: seq<nat>)
    requires |roots| < |images|
    requires forall p, q | 0 <= p < q < |keys| :: keys[p] != keys[q]
    ensures SizeSum(images, roots + [x], keys) == SizeSum(images, roots, keys) + (if x in keys then 1 else 0)
    decreases |keys|
  {
    if |keys| > 0 {
      var init := keys[..|keys| - 1];
      var r := keys[|keys| - 1];
      SizeSumGrow(images, roots, x, init);
      assert (roots + [x])[..|roots|] == roots;
      assert forall y :: y in keys <==> y in init || y == r;
    }
  }

  /** The groups partition the images: every image's root is a group key,
      the keys are distinct, and the group sizes add up to the number of
      images. */
  lemma {:induction false} GroupsPartition(images: seq<(Hash, string)>, roots: seq<nat>)
    requires |roots| <= |images|
    ensures forall i | 0 <= i < |roots| :: roots[i] in FirstSeen(roots)
    ensures SizeSum(images, roots, FirstSeen(roots)) == |roots|
    decreases |roots|
  {
    if |roots| > 0 {
      var init := roots[..|roots| - 1];
      var x := roots[|roots| - 1];
      GroupsPartition(images, init);
      assert roots == init + [x];
      var keys := FirstSeen(init);
      SizeSumGrow(images, init, x, keys);
      if x !in keys {
        MembersOfAbsent(images, init, x);
        assert (keys + [x])[..|keys|] == keys;
        SizeSumGrow(images, init, x, keys);
      }
    }
  }

  /** Each image is among the members of its own root. */
  lemma {:induction false} MemberOfOwnRoot(images: seq<(Hash, string)>, roots: seq<nat>, i: nat)
    requires |roots| <= |images| && i < |roots|
    ensures images[i].1 in Members(images, roots, roots[i])
    decreases |roots|
  {
    if i < |roots| - 1 {
      MemberOfOwnRoot(images, roots[..|roots| - 1], i);
    }
  }
}
