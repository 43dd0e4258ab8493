/** The two clean-up scans of the image script over the images folder:
    byte-identical copies, each paired with the last correctly named file
    of its content, and images that no blog entry refers to. A directory listing is the sequence of its entries
    in the order the operating system returns them; a file's content is
    represented by its digest. */
module ImageFinders {
  import opened Wrappers
  import opened Strings
  import opened BlogImages
  import opened BlogYaml
  import opened Sequences

  /** One entry of the images folder: its name, whether it is a regular file,
      and the digest of its content. */
  datatype ImageFile = ImageFile(name: string, isFile: bool, digest: string)

  /** A regular file with one of the image suffixes, in any letter case. */
  predicate IsScanned(f: ImageFile)
  {
    f.isFile && IsImageName(f.name)
  }

  /** The files both scans look at, in listing order. */
  function Scanned(listing: seq<ImageFile>): (r: seq<ImageFile>)
    ensures forall f | f in r :: f in listing && IsScanned(f)
    decreases |listing|
  {
    if |listing| == 0 then []
    else
      var f := listing[|listing| - 1];
      var init := Scanned(listing[..|listing| - 1]);
      if IsScanned(f) then init + [f] else init
  }

  // ------------------------------------------------------ exact duplicates

  /** The scanned files with digest `h`, in listing order: `all_files[h]`. */
  function Group(files: seq<ImageFile>, h: string): (g: seq<ImageFile>)
    ensures forall f | f in g :: f in files && f.digest == h
    decreases |files|
  {
    if |files| == 0 then []
    else
      var f := files[|files| - 1];
      var init := Group(files[..|files| - 1], h);
      if f.digest == h then init + [f] else init
  }

  /** `correct_files[h]`: the last correctly named file with digest `h`,
      since a later one overwrites an earlier one. */
  function Keeper(files: seq<ImageFile>, h: string): (k: Option<ImageFile>)
    ensures k.Some? ==> k.value in files && k.value.digest == h && FollowsNamingConvention(k.value.name)
    ensures k.None? <==> forall f | f in files && f.digest == h :: !FollowsNamingConvention(f.name)
    ensures k.Some? ==> exists i | 0 <= i < |files| :: files[i] == k.value && KeptNoneAfter(files, h, i)
    decreases |files|
  {
    if |files| == 0 then None
    else
      var f := files[|files| - 1];
      var init := files[..|files| - 1];
      assert files == init + [f];
      if f.digest == h && FollowsNamingConvention(f.name) then
        assert KeptNoneAfter(files, h, |files| - 1);
        Some(f)
      else
        var k := Keeper(init, h);
        if k.Some? then
          var i :| 0 <= i < |init| && init[i] == k.value && KeptNoneAfter(init, h, i);
          assert files[i] == k.value && KeptNoneAfter(files, h, i);
          k
        else
          k
  }

  /** No file after position `i` has digest `h` and a correct name. */
  predicate KeptNoneAfter(files: seq<ImageFile>, h: string, i: nat)
  {
    forall j | i < j < |files| :: files[j].digest != h || !FollowsNamingConvention(files[j].name)
  }

  /** The digests in the order they were first seen: the key order of
      `all_files`. */
  function Digests(files: seq<ImageFile>): (ds: seq<string>)
    ensures forall h :: h in ds <==> exists f | f in files :: f.digest == h
    decreases |files|
  {
    if |files| == 0 then []
    else
      var f := files[|files| - 1];
      var init := Digests(files[..|files| - 1]);
      assert forall g :: g in files <==> g in files[..|files| - 1] || g == f by {
        assert files == files[..|files| - 1] + [f];
      }
      if f.digest in init then init else init + [f.digest]
  }

  /** Each member of `group` other than the keeper, paired with the keeper. */
  function Pairs(group: seq<ImageFile>, keep: ImageFile): (ps: seq<(ImageFile, ImageFile)>)
    ensures forall p | p in ps :: p.0 in group && p.0.name != keep.name && p.1 == keep
    decreases |group|
  {
    if |group| == 0 then []
    else
      var f := group[|group| - 1];
      var init := Pairs(group[..|group| - 1], keep);
      if f.name != keep.name then init + [(f, keep)] else init
  }

  /** What one digest contributes: nothing unless it has more than one file
      and a correctly named one. */
  function GroupDeletions(files: seq<ImageFile>, h: string): seq<(ImageFile, ImageFile)>
  {
    if |Group(files, h)| > 1 && Keeper(files, h).Some? then Pairs(Group(files, h), Keeper(files, h).value)
    else []
  }

  function DeletionsOver(files: seq<ImageFile>, hs: seq<string>): seq<(ImageFile, ImageFile)>
    decreases |hs|
  {
    if |hs| == 0 then []
    else DeletionsOver(files, hs[..|hs| - 1]) + GroupDeletions(files, hs[|hs| - 1])
  }

  /** The `(duplicate, keeper)` pairs, digest by digest in first-seen order. */
  function Deletions(listing: seq<ImageFile>): seq<(ImageFile, ImageFile)>
  {
    DeletionsOver(Scanned(listing), Digests(Scanned(listing)))
  }

  lemma {:induction false} GroupStep(files: seq<ImageFile>, f: ImageFile, h: string)
    ensures Group(files + [f], h) == Group(files, h) + (if f.digest == h then [f] else [])
    ensures Keeper(files + [f], h) == if f.digest == h && FollowsNamingConvention(f.name) then Some(f) else Keeper(files, h)
    ensures Digests(files + [f]) == if f.digest in Digests(files) then Digests(files) else Digests(files) + [f.digest]
  {
    assert (files + [f])[..|files|] == files;
  }

  lemma {:induction false} ScannedStep(listing: seq<ImageFile>, i: int)
    requires 0 <= i < |listing|
    ensures Scanned(listing[..i + 1]) == Scanned(listing[..i]) + (if IsScanned(listing[i]) then [listing[i]] else [])
  {
    assert listing[..i + 1][..i] == listing[..i];
  }

  lemma {:induction false} UnseenDigest(files: seq<ImageFile>, h: string)
    requires h !in Digests(files)
    ensures Group(files, h) == [] && Keeper(files, h).None?
    decreases |files|
  {
    if |files| > 0 {
      assert files[|files| - 1] in files;
      var init := files[..|files| - 1];
      assert forall g | g in init :: g in files;
      UnseenDigest(init, h);
    }
  }

  lemma DeletionsOverStep(files: seq<ImageFile>, hs: seq<string>, k: int)
    requires 0 <= k < |hs|
    ensures DeletionsOver(files, hs[..k + 1]) == DeletionsOver(files, hs[..k]) + GroupDeletions(files, hs[k])
  {
    assert hs[..k + 1][..k] == hs[..k];
  }

  lemma PairsStep(group: seq<ImageFile>, keep: ImageFile, j: int)
    requires 0 <= j < |group|
    ensures Pairs(group[..j + 1], keep) ==
            Pairs(group[..j], keep) + (if group[j].name != keep.name then [(group[j], keep)] else [])
  {
    assert group[..j + 1][..j] == group[..j];
  }

  /** The two dictionaries of the scan and the key order of the first, as
      the files seen so far determine them. */
  ghost predicate Indexed(files: seq<ImageFile>, allFiles: map<string, seq<ImageFile>>,
                          correctFiles: map<string, ImageFile>, order: seq<string>)
  {
    GroupsIndexed(files, allFiles, order) && KeepersIndexed(files, correctFiles)
  }

  ghost predicate GroupsIndexed(files: seq<ImageFile>, allFiles: map<string, seq<ImageFile>>, order: seq<string>)
  {
    order == Digests(files) &&
    (forall h :: h in allFiles <==> h in order) &&
    (forall h | h in allFiles :: allFiles[h] == Group(files, h))
  }

  ghost predicate KeepersIndexed(files: seq<ImageFile>, correctFiles: map<string, ImageFile>)
  {
    (forall h :: h in correctFiles <==> Keeper(files, h).Some?) &&
    (forall h | h in correctFiles :: Keeper(files, h) == Some(correctFiles[h]))
  }

  /** Adding one scanned file to the dictionaries keeps them in step. */
  lemma IndexAdd(files: seq<ImageFile>, f: ImageFile,
                 a: map<string, seq<ImageFile>>, c: map<string, ImageFile>, o: seq<string>,
                 a1: map<string, seq<ImageFile>>,
                 a2: map<string, seq<ImageFile>>, c2: map<string, ImageFile>, o2: seq<string>)
    requires Indexed(files, a, c, o)
    requires a1 == (if f.digest in a then a else a[f.digest := []])
    requires o2 == (if f.digest in a then o else o + [f.digest])
    requires f.digest in a1 && a2 == a1[f.digest := a1[f.digest] + [f]]
    requires c2 == if FollowsNamingConvention(f.name) then c[f.digest := f] else c
    ensures Indexed(files + [f], a2, c2, o2)
  {
    assert a2 == a[f.digest := (if f.digest in a then a[f.digest] else []) + [f]];
    GroupsAdd(files, f, a, o, a2, o2);
    KeepersAdd(files, f, c, c2);
  }

  lemma GroupsAdd(files: seq<ImageFile>, f: ImageFile,
                  a: map<string, seq<ImageFile>>, o: seq<string>,
                  a2: map<string, seq<ImageFile>>, o2: seq<string>)
    requires GroupsIndexed(files, a, o)
    requires o2 == if f.digest in a then o else o + [f.digest]
    requires a2 == a[f.digest := (if f.digest in a then a[f.digest] else []) + [f]]
    ensures GroupsIndexed(files + [f], a2, o2)
  {
    forall g
      ensures Group(files + [f], g) == Group(files, g) + (if f.digest == g then [f] else [])
    {
      GroupStep(files, f, g);
    }
    GroupStep(files, f, f.digest);
    if f.digest !in a {
      UnseenDigest(files, f.digest);
    }
  }

  lemma KeepersAdd(files: seq<ImageFile>, f: ImageFile, c: map<string, ImageFile>, c2: map<string, ImageFile>)
    requires KeepersIndexed(files, c)
    requires c2 == if FollowsNamingConvention(f.name) then c[f.digest := f] else c
    ensures KeepersIndexed(files + [f], c2)
  {
    forall g
      ensures Keeper(files + [f], g) == if f.digest == g && FollowsNamingConvention(f.name) then Some(f) else Keeper(files, g)
    {
      GroupStep(files, f, g);
    }
  }

  /** The first loop of `find_duplicates_to_delete`: every scanned file is
      appended to its digest's group, and a correctly named one becomes its
      digest's keeper. */
  method IndexByDigest(listing: seq<ImageFile>)
    returns (allFiles: map<string, seq<ImageFile>>, correctFiles: map<string, ImageFile>, order: seq<string>)
    ensures Indexed(Scanned(listing), allFiles, correctFiles, order)
  {
    allFiles := map[];
    correctFiles := map[];
    order := [];
    ghost var files: seq<ImageFile> := [];
    for i := 0 to |listing|
      invariant files == Scanned(listing[..i])
      invariant Indexed(files, allFiles, correctFiles, order)
    {
      var f := listing[i];
      ScannedStep(listing, i);
      if f.isFile && IsImageName(f.name) {
        var h := f.digest;
        ghost var a, c, o := allFiles, correctFiles, order;
        if h !in allFiles {
          allFiles := allFiles[h := []];
          order := order + [h];
        }
        ghost var a1 := allFiles;
        allFiles := allFiles[h := allFiles[h] + [f]];
        if FollowsNamingConvention(f.name) {
          correctFiles := correctFiles[h := f];
        }
        IndexAdd(files, f, a, c, o, a1, allFiles, correctFiles, order);
        files := files + [f];
      }
    }
    assert listing[..|listing|] == listing;
  }

  /** What the dictionaries say about the `k`-th digest of the key order. */
  lemma IndexedAt(files: seq<ImageFile>, allFiles: map<string, seq<ImageFile>>,
                  correctFiles: map<string, ImageFile>, order: seq<string>, k: int)
    requires Indexed(files, allFiles, correctFiles, order) && 0 <= k < |order|
    ensures order[k] in allFiles && allFiles[order[k]] == Group(files, order[k])
    ensures order[k] in correctFiles <==> Keeper(files, order[k]).Some?
    ensures order[k] in correctFiles ==> Keeper(files, order[k]) == Some(correctFiles[order[k]])
  {
  }

  /** `find_duplicates_to_delete`: index the files by digest, then pair
      every other member of a group of two or more with the group's
      correctly named file. */
  method FindDuplicatesToDelete(listing: seq<ImageFile>) returns (toDelete: seq<(ImageFile, ImageFile)>)
    ensures toDelete == Deletions(listing)
  {
    var allFiles, correctFiles, order := IndexByDigest(listing);
    ghost var files := Scanned(listing);
    toDelete := [];
    for k := 0 to |order|
      invariant toDelete == DeletionsOver(files, order[..k])
    {
      var h := order[k];
      DeletionsOverStep(files, order, k);
      IndexedAt(files, allFiles, correctFiles, order, k);
      var group := allFiles[h];
      if |group| > 1 && h in correctFiles {
        var pairs := PairWithKeeper(group, correctFiles[h]);
        toDelete := toDelete + pairs;
      }
    }
    assert order[..|order|] == order;
  }

  /** The inner loop: every file of the group whose name differs from the
      keeper's, paired with the keeper, in group order. */
  method PairWithKeeper(group: seq<ImageFile>, correct: ImageFile) returns (pairs: seq<(ImageFile, ImageFile)>)
    ensures pairs == Pairs(group, correct)
  {
    pairs := [];
    for j := 0 to |group|
      invariant pairs == Pairs(group[..j], correct)
    {
      PairsStep(group, correct, j);
      if group[j].name != correct.name {
        pairs := pairs + [(group[j], correct)];
      }
    }
    assert group[..|group|] == group;
  }

  /** Every reported pair holds two scanned files with the same digest, a
      correctly named keeper that differs from the duplicate, and a digest
      shared by at least two files; a digest with a single file or without a
      correctly named file gives nothing. */
  lemma DeletionsSound(listing: seq<ImageFile>, dup: ImageFile, keep: ImageFile)
    requires (dup, keep) in Deletions(listing)
    ensures dup in Scanned(listing) && keep in Scanned(listing)
    ensures dup.digest == keep.digest && FollowsNamingConvention(keep.name) && dup.name != keep.name
    ensures |Group(Scanned(listing), keep.digest)| > 1
    ensures Keeper(Scanned(listing), keep.digest) == Some(keep)
  {
    var files := Scanned(listing);
    var h := DeletionsOverHas(files, Digests(files), dup, keep);
  }

  lemma {:induction false} DeletionsOverHas(files: seq<ImageFile>, hs: seq<string>, dup: ImageFile, keep: ImageFile)
    returns (h: string)
    requires (dup, keep) in DeletionsOver(files, hs)
    ensures h in hs && (dup, keep) in GroupDeletions(files, h)
    ensures dup in files && keep in files
    ensures dup.digest == keep.digest == h && FollowsNamingConvention(keep.name) && dup.name != keep.name
    ensures |Group(files, h)| > 1 && Keeper(files, h) == Some(keep)
    decreases |hs|
  {
    var init := hs[..|hs| - 1];
    if (dup, keep) in DeletionsOver(files, init) {
      h := DeletionsOverHas(files, init, dup, keep);
      assert h in hs by {
        var i :| 0 <= i < |init| && init[i] == h;
        assert hs[i] == h;
      }
    } else {
      h := hs[|hs| - 1];
    }
  }

  /** Every scanned file whose digest has two or more files and a correctly
      named keeper other than itself is reported, paired with that keeper. */
  lemma DeletionsComplete(listing: seq<ImageFile>, dup: ImageFile)
    requires dup in Scanned(listing)
    requires |Group(Scanned(listing), dup.digest)| > 1
    requires Keeper(Scanned(listing), dup.digest).Some?
    requires dup.name != Keeper(Scanned(listing), dup.digest).value.name
    ensures (dup, Keeper(Scanned(listing), dup.digest).value) in Deletions(listing)
  {
    var files := Scanned(listing);
    var h := dup.digest;
    var keep := Keeper(files, h).value;
    GroupHas(files, dup);
    PairsHas(Group(files, h), keep, dup);
    assert h in Digests(files);
    DeletionsOverIncludes(files, Digests(files), h, (dup, keep));
  }

  lemma {:induction false} GroupHas(files: seq<ImageFile>, f: ImageFile)
    requires f in files
    ensures f in Group(files, f.digest)
    decreases |files|
  {
    var init := files[..|files| - 1];
    if files[|files| - 1] != f {
      assert files == init + [files[|files| - 1]];
      GroupHas(init, f);
    }
  }

  lemma {:induction false} PairsHas(group: seq<ImageFile>, keep: ImageFile, f: ImageFile)
    requires f in group && f.name != keep.name
    ensures (f, keep) in Pairs(group, keep)
    decreases |group|
  {
    var init := group[..|group| - 1];
    if group[|group| - 1] != f {
      assert group == init + [group[|group| - 1]];
      PairsHas(init, keep, f);
    }
  }

  lemma {:induction false} DeletionsOverIncludes(files: seq<ImageFile>, hs: seq<string>, h: string, p: (ImageFile, ImageFile))
    requires h in hs && p in GroupDeletions(files, h)
    ensures p in DeletionsOver(files, hs)
    decreases |hs|
  {
    var init := hs[..|hs| - 1];
    if hs[|hs| - 1] != h {
      assert hs == init + [hs[|hs| - 1]];
      DeletionsOverIncludes(files, init, h, p);
    }
  }

  // ------------------------------------ correctly named duplicates

  /** Two correctly named files with the same content: the first is listed
      for deletion, paired with the second, although it follows the naming
      convention. The keeper is simply the last correctly named file seen. */
  lemma ConventionalDuplicateDeleted(a: ImageFile, b: ImageFile)
    requires IsScanned(a) && IsScanned(b) && a.digest == b.digest && a.name != b.name
    requires FollowsNamingConvention(a.name) && FollowsNamingConvention(b.name)
    ensures (a, b) in Deletions([a, b]) && FollowsNamingConvention(a.name)
  {
    var listing := [a, b];
    TwoScanned(a, b);
    TwoGrouped(a, b);
    DeletionsComplete(listing, a);
  }

  lemma TwoScanned(a: ImageFile, b: ImageFile)
    requires IsScanned(a) && IsScanned(b)
    ensures Scanned([a, b]) == [a, b]
  {
    var listing := [a, b];
    ScannedStep(listing, 0);
    ScannedStep(listing, 1);
    assert listing[..0] == [] && listing[..1] == [a] && listing[..2] == listing;
  }

  lemma TwoGrouped(a: ImageFile, b: ImageFile)
    requires a.digest == b.digest && FollowsNamingConvention(b.name)
    ensures Group([a, b], a.digest) == [a, b] && Keeper([a, b], a.digest) == Some(b)
  {
    GroupStep([], a, a.digest);
    GroupStep([a], b, a.digest);
    assert [] + [a] == [a] && [a] + [b] == [a, b];
  }

  /** Two copies of one picture named by the convention for the same day
      under different titles (`20220603_a.webp`, `20220603_b.webp`): the
      first is deleted. */
  lemma ConventionalDuplicateExample(prefix: string, s1: string, s2: string, h: string)
    requires |prefix| == 8 && AllDigits(prefix)
    requires IsSlug(s1) && IsSlug(s2) && s1 != "" && s2 != "" && s1 != s2
    ensures var a, b := ImageFile(prefix + "_" + s1 + ".webp", true, h),
                        ImageFile(prefix + "_" + s2 + ".webp", true, h);
            (a, b) in Deletions([a, b]) && FollowsNamingConvention(a.name)
  {
    var a, b := ImageFile(prefix + "_" + s1 + ".webp", true, h),
                ImageFile(prefix + "_" + s2 + ".webp", true, h);
    assert IsScanned(a) by { ConventionalIsImage(prefix, s1); }
    assert IsScanned(b) by { ConventionalIsImage(prefix, s2); }
    assert FollowsNamingConvention(a.name) by { NameConvention(prefix, s1); }
    assert FollowsNamingConvention(b.name) by { NameConvention(prefix, s2); }
    assert a.name[9..|a.name| - 5] == s1 && b.name[9..|b.name| - 5] == s2;
    ConventionalDuplicateDeleted(a, b);
  }

  /** A conventional name is an image name. */
  lemma ConventionalIsImage(prefix: string, slug: string)
    requires AllDigits(prefix) && IsSlug(slug)
    ensures IsImageName(prefix + "_" + slug + ".webp")
  {
    var stem := prefix + "_" + slug;
    forall k | 0 <= k < |stem| ensures stem[k] != '.' {
      if k < |prefix| { assert stem[k] == prefix[k]; }
      else if k > |prefix| { assert stem[k] == slug[k - |prefix| - 1]; }
    }
    WebpSuffix(stem);
  }

  /** A non-empty stem without a dot, followed by ".webp", is an image name. */
  lemma WebpSuffix(stem: string)
    requires |stem| > 0 && '.' !in stem
    ensures IsImageName(stem + ".webp")
  {
    var n := stem + ".webp";
    assert n[|stem|] == '.';
    var i := LastIndexOf(n, '.');
    assert i == |stem|;
    assert Suffix(n) == n[i..] == ".webp";
    assert Lower(".webp") == ".webp" by {
      assert forall k | 0 <= k < 5 :: LowerChar(".webp"[k]) == ".webp"[k];
    }
  }

  /** The deletions the docstring of `find_duplicates_to_delete` promises:
      only duplicates that do not follow the naming convention go. */
  function IntendedDeletions(listing: seq<ImageFile>): (r: seq<(ImageFile, ImageFile)>)
    ensures forall p | p in r :: !FollowsNamingConvention(p.0.name)
  {
    Keep(Deletions(listing), (p: (ImageFile, ImageFile)) => !FollowsNamingConvention(p.0.name))
  }

  /** Every intended deletion is a badly named duplicate of the keeper of
      its digest. */
  lemma IntendedDeletionsSound(listing: seq<ImageFile>, dup: ImageFile, keep: ImageFile)
    requires (dup, keep) in IntendedDeletions(listing)
    ensures !FollowsNamingConvention(dup.name) && dup in Scanned(listing)
    ensures dup.digest == keep.digest && Keeper(Scanned(listing), keep.digest) == Some(keep)
  {
    DeletionsSound(listing, dup, keep);
  }

  /** Every badly named file whose content also lies in a correctly named
      file is deleted in favour of that file's keeper; no correctly named
      file ever is. */
  lemma IntendedDeletionsComplete(listing: seq<ImageFile>, dup: ImageFile)
    requires dup in Scanned(listing) && !FollowsNamingConvention(dup.name)
    requires Keeper(Scanned(listing), dup.digest).Some?
    ensures (dup, Keeper(Scanned(listing), dup.digest).value) in IntendedDeletions(listing)
  {
    var files := Scanned(listing);
    var keep := Keeper(files, dup.digest).value;
    assert dup.name != keep.name;
    GroupHas(files, dup);
    GroupHas(files, keep);
    TwoMembers(Group(files, dup.digest), dup, keep);
    DeletionsComplete(listing, dup);
  }

  /** A sequence holding two different elements has more than one. */
  lemma TwoMembers<T>(g: seq<T>, x: T, y: T)
    requires x in g && y in g && x != y
    ensures |g| > 1
  {
  }

  // ------------------------------------------------------ unused images

  /** Site assets used outside the blog, never reported. */
  const IgnoredFiles: set<string> := {"anyway.jpg", "bg.jpg", "bg.webp", "overlay.webp", ".DS_Store"}

  /** The folder link a blog entry has when it has no picture. */
  const EmptyImageLink := "content/images/"

  /** Whether an entry's image link counts as a reference. */
  predicate Refers(e: BlogEntry)
  {
    e.image.Some? && e.image.value != "" && e.image.value != EmptyImageLink
  }

  /** The decoded file name an image link refers to. */
  function LinkName(link: string): string
  {
    Unquote(LastSegment(link))
  }

  /** `used_filenames`. */
  function UsedNames(entries: seq<BlogEntry>): (r: set<string>)
    ensures forall x :: x in r <==> exists k | 0 <= k < |entries| :: Refers(entries[k]) && LinkName(entries[k].image.value) == x
    decreases |entries|
  {
    if |entries| == 0 then {}
    else
      var e := entries[|entries| - 1];
      var init := entries[..|entries| - 1];
      var r := UsedNames(init);
      assert forall k | 0 <= k < |init| :: init[k] == entries[k];
      if Refers(e) then r + {LinkName(e.image.value)} else r
  }

  /** `used_stems`. */
  function UsedStems(entries: seq<BlogEntry>): (r: set<string>)
    ensures forall x :: x in r <==> exists k | 0 <= k < |entries| :: Refers(entries[k]) && Stem(LinkName(entries[k].image.value)) == x
    decreases |entries|
  {
    if |entries| == 0 then {}
    else
      var e := entries[|entries| - 1];
      var init := entries[..|entries| - 1];
      var r := UsedStems(init);
      assert forall k | 0 <= k < |init| :: init[k] == entries[k];
      if Refers(e) then r + {Stem(LinkName(e.image.value))} else r
  }

  /** Whether a file of the folder is reported as unused. */
  predicate IsUnused(f: ImageFile, usedNames: set<string>, usedStems: set<string>)
  {
    IsScanned(f) && f.name !in IgnoredFiles && f.name !in usedNames &&
    !(Lower(Suffix(f.name)) in [".jpg", ".jpeg"] && Stem(f.name) in usedStems)
  }

  /** The names of the unused files, in listing order. */
  function UnusedNames(listing: seq<ImageFile>, usedNames: set<string>, usedStems: set<string>): (r: seq<string>)
    ensures forall x :: x in r <==> exists f | f in listing :: f.name == x && IsUnused(f, usedNames, usedStems)
    decreases |listing|
  {
    if |listing| == 0 then []
    else
      var f := listing[|listing| - 1];
      var init := listing[..|listing| - 1];
      assert listing == init + [f];
      var r := UnusedNames(init, usedNames, usedStems);
      if IsUnused(f, usedNames, usedStems) then r + [f.name] else r
  }

  /** `find_unused_images`: collect the referenced names and stems, keep the
      unused files, and sort them by name. */
  method FindUnusedImages(listing: seq<ImageFile>, entries: seq<BlogEntry>) returns (unused: seq<string>)
    ensures unused == Sort(UnusedNames(listing, UsedNames(entries), UsedStems(entries)))
  {
    var usedFilenames: set<string> := {};
    var usedStems: set<string> := {};
    for k := 0 to |entries|
      invariant usedFilenames == UsedNames(entries[..k])
      invariant usedStems == UsedStems(entries[..k])
    {
      assert entries[..k + 1][..k] == entries[..k];
      var e := entries[k];
      if e.image.Some? && e.image.value != "" && e.image.value != EmptyImageLink {
        var filename := Unquote(LastSegment(e.image.value));
        usedFilenames := usedFilenames + {filename};
        usedStems := usedStems + {Stem(filename)};
      }
    }
    assert entries[..|entries|] == entries;
    var found: seq<string> := [];
    for i := 0 to |listing|
      invariant found == UnusedNames(listing[..i], usedFilenames, usedStems)
    {
      assert listing[..i + 1][..i] == listing[..i];
      var f := listing[i];
      if !f.isFile {
        continue;
      }
      if Lower(Suffix(f.name)) !in [".webp", ".jpg", ".jpeg", ".png"] {
        continue;
      }
      if f.name in IgnoredFiles {
        continue;
      }
      if f.name in usedFilenames {
        continue;
      }
      if Lower(Suffix(f.name)) in [".jpg", ".jpeg"] && Stem(f.name) in usedStems {
        continue;
      }
      found := found + [f.name];
    }
    assert listing[..|listing|] == listing;
    unused := Sort(found);
  }

  /** The report is in ascending name order and lists exactly the image
      files of the folder that are not ignored, not referenced by name, and
      not a JPEG whose stem a referenced image shares. */
  lemma UnusedReport(listing: seq<ImageFile>, entries: seq<BlogEntry>, name: string)
    ensures var r := Sort(UnusedNames(listing, UsedNames(entries), UsedStems(entries)));
            SortedAsc(r) &&
            (name in r <==> exists f | f in listing :: f.name == name && IsUnused(f, UsedNames(entries), UsedStems(entries)))
  {
    var u := UnusedNames(listing, UsedNames(entries), UsedStems(entries));
    var r := Sort(u);
    assert name in r <==> name in multiset(r);
    assert name in u <==> name in multiset(u);
  }

  /** The common case the stem rule is for: a JPEG kept beside the WebP
      version an entry links to is not reported. */
  lemma JpegBesideLinkedWebp(listing: seq<ImageFile>, entries: seq<BlogEntry>, k: int, jpeg: ImageFile)
    requires 0 <= k < |entries| && Refers(entries[k])
    requires jpeg in listing && Lower(Suffix(jpeg.name)) == ".jpg"
    requires Stem(jpeg.name) == Stem(LinkName(entries[k].image.value))
    ensures forall f | f in listing && f.name == jpeg.name :: !IsUnused(f, UsedNames(entries), UsedStems(entries))
  {
    assert Stem(jpeg.name) in UsedStems(entries);
  }
}
