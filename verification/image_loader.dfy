/**
  `ImageLoader::loadImagesFromDirectory` without the resizing branch: list
  the directory, keep the regular files whose extension is ".png" in any
  letter case, sort them by path, keep the first `maxImages` when that is
  positive, decode each, and store every success under the file's stem.

  The directory listing is a sequence of entries and the decoder is an
  oracle, so a load is a pure function of the store, the listing, the options
  and the oracle.
 */
module ImageLoader {
  import opened Wrappers
  import opened Orders
  import opened NumericOrder
  import opened Images
  import opened ImageStore

  /** One `directory_iterator` entry: its file name and whether `is_regular_file()` holds. */
  datatype DirEntry = DirEntry(fileName: string, regularFile: bool)

  /** What the path names: nothing, something that is not a directory, or a directory with these entries. */
  datatype Directory = NoSuchPath | NotADirectory | Listing(entries: seq<DirEntry>)

  /** `stbi_load` on a file of the directory: None when decoding fails. */
  type Decoder = string -> Option<StbImage>

  /** The returned flag, the number of successful decodes (`loadedCount`) and the resulting map. */
  datatype LoadResult = LoadResult(ok: bool, loaded: nat, store: Store)

  // ---------------------------------------------------------------------------
  // File names

  /** Index of the last '.' in a file name. */
  function LastDot(f: string): (r: Option<nat>)
    ensures r.Some? ==> r.value < |f| && f[r.value] == '.' && forall i :: r.value < i < |f| ==> f[i] != '.'
    ensures r.None? ==> forall i :: 0 <= i < |f| ==> f[i] != '.'
  {
    if |f| == 0 then None
    else if f[|f| - 1] == '.' then Some(|f| - 1)
    else LastDot(f[..|f| - 1])
  }

  /**
    Where `path::stem()` ends and `path::extension()` begins: at the last
    period, unless the name is "." or "..", or its only period is a leading one.
   */
  function ExtensionStart(f: string): (p: nat)
    ensures p <= |f|
  {
    if f == "." || f == ".." then |f|
    else match LastDot(f)
      case Some(p) => if p == 0 then |f| else p
      case None => |f|
  }

  /** `path::stem()` of a file name: what precedes the extension. */
  function Stem(f: string): (r: string)
    ensures |r| <= |f| && r == f[..|r|]
  {
    f[..ExtensionStart(f)]
  }

  /**
    `path::extension()` of a file name: the last period and what follows it,
    and empty when no period follows the first character or the name is "." or "..".
   */
  function Extension(f: string): (e: string)
    ensures |e| <= |f| && e == f[|f| - |e|..]
  {
    f[ExtensionStart(f)..]
  }

  /**
    What `path::extension()` means: it is empty exactly when the name is "."
    or "..", or no period follows its first character; otherwise it starts at
    the last period, which is not the first character, and holds no other period.
   */
  lemma ExtensionIsAfterLastDot(f: string)
    ensures var p := ExtensionStart(f);
      && (p < |f| ==> && f != "." && f != ".." && 0 < p && f[p] == '.'
                      && forall i :: p < i < |f| ==> f[i] != '.')
      && (p == |f| <==> f == "." || f == ".." || forall i :: 0 < i < |f| ==> f[i] != '.')
    ensures var e := Extension(f);
      && (|e| == 0 <==> f == "." || f == ".." || forall i :: 0 < i < |f| ==> f[i] != '.')
      && (|e| > 0 ==> && |e| < |f| && e[0] == '.'
                      && forall i :: 0 < i < |e| ==> e[i] != '.')
  {
  }

  /** `std::tolower` in the "C" locale. */
  function ToLower(c: char): char {
    if 'A' <= c <= 'Z' then (c as int - 'A' as int + 'a' as int) as char else c
  }

  function Lower(s: string): (r: string)
    ensures |r| == |s|
    ensures forall i :: 0 <= i < |s| ==> r[i] == ToLower(s[i])
  {
    seq(|s|, i requires 0 <= i < |s| => ToLower(s[i]))
  }

  predicate IsPngCandidate(e: DirEntry) {
    e.regularFile && Lower(Extension(e.fileName)) == ".png"
  }

  // ---------------------------------------------------------------------------
  // Candidate selection

  /** Some regular ".png" entry of the listing is called `f`. */
  ghost predicate ListedCandidate(entries: seq<DirEntry>, f: string) {
    exists i :: 0 <= i < |entries| && IsPngCandidate(entries[i]) && entries[i].fileName == f
  }

  /** The collection loop: the names of the regular ".png" entries, in listing order. */
  function PngFiles(entries: seq<DirEntry>): (r: seq<string>)
    ensures |r| <= |entries|
    ensures forall f :: f in r <==> ListedCandidate(entries, f)
  {
    if |entries| == 0 then []
    else
      var init := PngFiles(entries[..|entries| - 1]);
      var e := entries[|entries| - 1];
      assert forall f :: ListedCandidate(entries, f) <==>
        ListedCandidate(entries[..|entries| - 1], f) || (IsPngCandidate(e) && e.fileName == f) by {
        forall f ensures ListedCandidate(entries, f) ==>
          ListedCandidate(entries[..|entries| - 1], f) || (IsPngCandidate(e) && e.fileName == f)
        {
          if ListedCandidate(entries, f) {
            var i :| 0 <= i < |entries| && IsPngCandidate(entries[i]) && entries[i].fileName == f;
            if i < |entries| - 1 {
              assert entries[..|entries| - 1][i] == entries[i];
            }
          }
        }
      }
      if IsPngCandidate(e) then init + [e.fileName] else init
  }

  /** Paths that share a directory compare by file name, character by character. */
  ghost predicate LexSorted(fs: seq<string>) {
    forall i, j :: 0 <= i < j < |fs| ==> !LexLess(fs[j], fs[i])
  }

  lemma LexNotGreaterTransitive(a: string, b: string, c: string)
    requires !LexLess(b, a) && !LexLess(c, b)
    ensures !LexLess(c, a)
  {
    LexConnected(a, b);
    LexConnected(b, c);
    if LexLess(a, b) && LexLess(b, c) {
      LexTransitive(a, b, c);
    }
    if LexLess(a, c) {
      LexAsymmetric(a, c);
    } else if a == c {
      LexIrreflexive(a);
    }
  }

  function InsertSorted(x: string, xs: seq<string>): (r: seq<string>)
    requires LexSorted(xs)
    ensures LexSorted(r)
    ensures multiset(r) == multiset(xs) + multiset{x}
  {
    if |xs| == 0 then [x]
    else if !LexLess(xs[0], x) then
      var r := [x] + xs;
      assert r[1..] == xs;
      assert forall j :: 0 < j < |r| ==> !LexLess(r[j], x) by {
        forall j | 0 < j < |r| ensures !LexLess(r[j], x) {
          assert r[j] == xs[j - 1];
          if j > 1 {
            assert !LexLess(xs[j - 1], xs[0]);
          } else {
            LexIrreflexive(xs[0]);
          }
          LexNotGreaterTransitive(x, xs[0], r[j]);
        }
      }
      r
    else
      var rest := InsertSorted(x, xs[1..]);
      assert xs == [xs[0]] + xs[1..];
      var r := [xs[0]] + rest;
      assert forall j :: 0 <= j < |rest| ==> !LexLess(rest[j], xs[0]) by {
        forall j | 0 <= j < |rest| ensures !LexLess(rest[j], xs[0]) {
          assert rest[j] in multiset(rest);
          if rest[j] == x {
            LexAsymmetric(xs[0], x);
          } else {
            assert rest[j] in multiset(xs[1..]);
            var k :| 0 <= k < |xs[1..]| && xs[1..][k] == rest[j];
            assert xs[k + 1] == rest[j];
          }
        }
      }
      r
  }

  /** `std::sort` of the candidate paths. */
  function SortFileNames(fs: seq<string>): (r: seq<string>)
    ensures LexSorted(r)
    ensures multiset(r) == multiset(fs)
  {
    if |fs| == 0 then []
    else
      assert fs == fs[..|fs| - 1] + [fs[|fs| - 1]];
      InsertSorted(fs[|fs| - 1], SortFileNames(fs[..|fs| - 1]))
  }

  /** The `maxImages` cut: the first `maxImages` names when it is positive, all of them otherwise. */
  function Truncate(fs: seq<string>, maxImages: int): (r: seq<string>)
    ensures r <= fs
    ensures |r| == if maxImages > 0 && |fs| > maxImages then maxImages else |fs|
  {
    if maxImages > 0 && |fs| > maxImages then fs[..maxImages] else fs
  }

  /** The files the load loop visits, in order. */
  function SelectedFiles(entries: seq<DirEntry>, options: LoadOptions): (r: seq<string>)
    ensures LexSorted(r)
    ensures forall f :: f in r ==> ListedCandidate(entries, f)
  {
    var sorted := SortFileNames(PngFiles(entries));
    SortedPrefix(sorted, Truncate(sorted, options.maxImages));
    SortKeepsNames(PngFiles(entries));
    Truncate(sorted, options.maxImages)
  }

  /** A prefix of a sorted list is sorted and holds only names of the list. */
  lemma SortedPrefix(fs: seq<string>, p: seq<string>)
    requires LexSorted(fs) && p <= fs
    ensures LexSorted(p)
    ensures forall f :: f in p ==> f in fs
  {
    forall f | f in p ensures f in fs {
      var i :| 0 <= i < |p| && p[i] == f;
      assert fs[i] == f;
    }
  }

  /** The sort neither invents nor loses names. */
  lemma SortKeepsNames(fs: seq<string>)
    ensures forall f :: f in SortFileNames(fs) <==> f in fs
  {
    var sorted := SortFileNames(fs);
    forall f ensures f in sorted <==> f in fs {
      assert f in sorted <==> f in multiset(sorted);
    }
  }

  // ---------------------------------------------------------------------------
  // The load loop

  ghost function Stems(files: seq<string>): set<string> {
    set i | 0 <= i < |files| :: Stem(files[i])
  }

  /** True when no file of the list decodes. */
  predicate NoneDecodes(files: seq<string>, decode: Decoder) {
    forall i :: 0 <= i < |files| ==> decode(files[i]).None?
  }

  /** One iteration of the load loop. */
  function LoadOne(store: Store, f: string, decode: Decoder): (r: Store)
    ensures decode(f).None? ==> r == store
    ensures KeySet(store) <= KeySet(r) <= KeySet(store) + {Stem(f)}
    ensures |r| <= |store| + 1
  {
    match decode(f)
    case None => store
    case Some(d) => Assign(NumericLess, store, Stem(f), FromDecoded(d))
  }

  /**
    The loop over the selected files: every decode failure is skipped, every
    success is assigned under the file's stem. Returns the map and `loadedCount`.
   */
  function LoadFiles(store: Store, files: seq<string>, decode: Decoder): (r: (Store, nat))
    ensures r.1 <= |files|
    ensures r.1 == 0 <==> NoneDecodes(files, decode)
    ensures KeySet(store) <= KeySet(r.0) <= KeySet(store) + Stems(files)
    ensures |r.0| <= |store| + r.1
  {
    if |files| == 0 then (store, 0)
    else
      var init := files[..|files| - 1];
      var f := files[|files| - 1];
      var prev := LoadFiles(store, init, decode);
      StemsOfPrefix(files);
      NoneDecodesOfPrefix(files, decode);
      var next := LoadOne(prev.0, f, decode);
      assert KeySet(next) <= KeySet(store) + Stems(files) by {
        assert KeySet(prev.0) <= KeySet(store) + Stems(init);
        assert KeySet(next) <= KeySet(prev.0) + {Stem(f)};
      }
      (next, if decode(f).Some? then prev.1 + 1 else prev.1)
  }

  /** `loadImagesFromDirectory` (no resizing): the flag is `loadedCount > 0`. */
  function LoadImages(store: Store, dir: Directory, options: LoadOptions, decode: Decoder): (r: LoadResult)
    ensures !dir.Listing? ==> r == LoadResult(false, 0, store)
    ensures dir.Listing? ==> (r.ok <==> exists f :: f in SelectedFiles(dir.entries, options) && decode(f).Some?)
    ensures r.ok <==> r.loaded > 0
    ensures KeySet(store) <= KeySet(r.store)
  {
    match dir
    case Listing(entries) =>
      var files := SelectedFiles(entries, options);
      var run := LoadFiles(store, files, decode);
      LoadResult(run.1 > 0, run.1, run.0)
    case _ => LoadResult(false, 0, store)
  }

  // ---------------------------------------------------------------------------
  // File names

  /** A file name splits into its stem followed by its extension. */
  lemma StemThenExtension(f: string)
    ensures Stem(f) + Extension(f) == f
  {
  }

  /** "x.png" and "x.PNG" are candidates with stem "x" whenever "x" is not empty. */
  lemma PngNameIsCandidate(x: string, ext: string)
    requires |x| > 0
    requires ext == ".png" || ext == ".PNG" || ext == ".Png"
    ensures IsPngCandidate(DirEntry(x + ext, true))
    ensures Stem(x + ext) == x
  {
    assert ext[0] == '.' && forall i :: 0 < i < |ext| ==> ext[i] != '.';
    SplitAtLastDot(x, ext);
    assert Lower(ext) == ".png";
  }

  /**
    A name whose last period follows a non-empty stem splits there (a
    two-character name would be "..", which has no extension).
   */
  lemma SplitAtLastDot(x: string, ext: string)
    requires |x| > 0 && |ext| > 1 && ext[0] == '.'
    requires forall i :: 0 < i < |ext| ==> ext[i] != '.'
    ensures Stem(x + ext) == x && Extension(x + ext) == ext
  {
    var f := x + ext;
    var p := ExtensionStart(f);
    ExtensionIsAfterLastDot(f);
    assert f[|x|] == '.' && f != "." && f != "..";
    assert forall i :: |x| < i < |f| ==> f[i] == ext[i - |x|];
    assert p < |f|;
    assert f[..|x|] == x && f[|x|..] == ext;
  }

  /** A file called just ".png" has no extension (its only period is leading), so it is never loaded. */
  lemma DotPngIsNotCandidate()
    ensures !IsPngCandidate(DirEntry(".png", true))
    ensures Extension(".png") == ""
  {
    var f := ".png";
    assert LastDot(f[..1]) == Some(0);
    assert f[..4][..3] == f[..3];
    assert f[..3][..2] == f[..2];
    assert f[..2][..1] == f[..1];
  }

  /** Directories and other non-regular entries are never loaded, whatever their name. */
  lemma NonRegularIsNotCandidate(name: string)
    ensures !IsPngCandidate(DirEntry(name, false))
  {
  }

  // ---------------------------------------------------------------------------
  // Sorting and truncation

  /**
    Sorted permutations are unique: the model's sort returns exactly what
    any correct sort of the candidate paths returns.
   */
  lemma {:induction false} SortedPermutationUnique(a: seq<string>, b: seq<string>)
    requires LexSorted(a) && LexSorted(b)
    requires multiset(a) == multiset(b)
    ensures a == b
  {
    if |a| > 0 {
      assert |b| > 0 by {
        assert a[0] in multiset(b);
      }
      SortedHeadsAgree(a, b);
      SameHeadSameTails(a, b);
      assert LexSorted(a[1..]) && LexSorted(b[1..]);
      SortedPermutationUnique(a[1..], b[1..]);
      assert a == [a[0]] + a[1..] && b == [b[0]] + b[1..];
    }
  }

  /** Two sorted sequences holding the same names start with the same name. */
  lemma SortedHeadsAgree(a: seq<string>, b: seq<string>)
    requires LexSorted(a) && LexSorted(b)
    requires multiset(a) == multiset(b)
    requires |a| > 0 && |b| > 0
    ensures a[0] == b[0]
  {
    assert a[0] in multiset(b) && b[0] in multiset(a);
    var i :| 0 <= i < |b| && b[i] == a[0];
    var j :| 0 <= j < |a| && a[j] == b[0];
    assert !LexLess(a[0], b[0]) by {
      if i > 0 { assert !LexLess(b[i], b[0]); } else { LexIrreflexive(b[0]); }
    }
    assert !LexLess(b[0], a[0]) by {
      if j > 0 { assert !LexLess(a[j], a[0]); } else { LexIrreflexive(a[0]); }
    }
    LexConnected(a[0], b[0]);
  }

  /** Removing the same first name from two sequences holding the same names leaves the same names. */
  lemma SameHeadSameTails(a: seq<string>, b: seq<string>)
    requires multiset(a) == multiset(b)
    requires |a| > 0 && |b| > 0 && a[0] == b[0]
    ensures multiset(a[1..]) == multiset(b[1..])
  {
    assert a == [a[0]] + a[1..] && b == [b[0]] + b[1..];
    assert multiset(a) == multiset{a[0]} + multiset(a[1..]);
    assert multiset(b) == multiset{a[0]} + multiset(b[1..]);
    assert multiset(a[1..]) == multiset(a) - multiset{a[0]};
    assert multiset(b[1..]) == multiset(b) - multiset{a[0]};
  }

  /** With the default options (no limit), every candidate of the listing is visited. */
  lemma DefaultOptionsKeepAll(entries: seq<DirEntry>)
    ensures multiset(SelectedFiles(entries, DefaultOptions())) == multiset(PngFiles(entries))
  {
  }

  /** A positive limit keeps the first `maxImages` names of the sorted candidates. */
  lemma LimitKeepsSortedPrefix(entries: seq<DirEntry>, options: LoadOptions)
    requires options.maxImages > 0
    ensures SelectedFiles(entries, options) <= SortFileNames(PngFiles(entries))
    ensures |SelectedFiles(entries, options)| == if |PngFiles(entries)| > options.maxImages then options.maxImages else |PngFiles(entries)|
  {
    var candidates := PngFiles(entries);
    var sorted := SortFileNames(candidates);
    assert |sorted| == |candidates| by {
      assert |multiset(sorted)| == |multiset(candidates)|;
    }
    assert SelectedFiles(entries, options) == Truncate(sorted, options.maxImages);
  }

  // ---------------------------------------------------------------------------
  // The load loop

  /** The record of the last decoded file whose stem is equivalent to `k`: the one a load leaves under `k`. */
  function LastDecoded(files: seq<string>, decode: Decoder, k: string): Option<ImageData> {
    if |files| == 0 then None
    else
      var f := files[|files| - 1];
      if decode(f).Some? && Equivalent(NumericLess, Stem(f), k) then Some(FromDecoded(decode(f).value))
      else LastDecoded(files[..|files| - 1], decode, k)
  }

  lemma NoneDecodesOfPrefix(files: seq<string>, decode: Decoder)
    requires |files| > 0
    ensures NoneDecodes(files, decode) <==> NoneDecodes(files[..|files| - 1], decode) && decode(files[|files| - 1]).None?
  {
    var init := files[..|files| - 1];
    assert forall i :: 0 <= i < |init| ==> init[i] == files[i];
  }

  lemma StemsOfPrefix(files: seq<string>)
    requires |files| > 0
    ensures Stems(files) == Stems(files[..|files| - 1]) + {Stem(files[|files| - 1])}
  {
    var init := files[..|files| - 1];
    assert forall i :: 0 <= i < |init| ==> init[i] == files[i];
  }

  /** The load loop keeps the map sorted while its comparator stays transitive on the keys involved. */
  lemma {:induction false} LoadFilesKeepsSorted(store: Store, files: seq<string>, decode: Decoder)
    requires Sorted(NumericLess, store)
    requires TransitiveOn(NumericLess, KeySet(store) + Stems(files))
    ensures Sorted(NumericLess, LoadFiles(store, files, decode).0)
  {
    if |files| > 0 {
      var init := files[..|files| - 1];
      var f := files[|files| - 1];
      StemsOfPrefix(files);
      TransitiveOnSubset(NumericLess, KeySet(store) + Stems(init), KeySet(store) + Stems(files));
      LoadFilesKeepsSorted(store, init, decode);
      var prev := LoadFiles(store, init, decode).0;
      if decode(f).Some? {
        NumericKeyOrder();
        TransitiveOnSubset(NumericLess, KeySet(prev) + {Stem(f)}, KeySet(store) + Stems(files));
        AssignKeepsSorted(NumericLess, prev, Stem(f), FromDecoded(decode(f).value));
      }
    }
  }

  /**
    After the loop, a name finds the record of the last decoded file whose
    stem is equivalent to it; names no decoded file matches find what they
    found before: later files overwrite earlier ones and nothing is cleared.
   */
  lemma {:induction false} LoadFilesLastWins(store: Store, files: seq<string>, decode: Decoder, k: string)
    requires Sorted(NumericLess, store)
    requires TransitiveOn(NumericLess, KeySet(store) + Stems(files) + {k})
    ensures Find(NumericLess, LoadFiles(store, files, decode).0, k) ==
      if LastDecoded(files, decode, k).Some? then LastDecoded(files, decode, k) else Find(NumericLess, store, k)
  {
    if |files| > 0 {
      var init := files[..|files| - 1];
      var f := files[|files| - 1];
      StemsOfPrefix(files);
      TransitiveOnSubset(NumericLess, KeySet(store) + Stems(init) + {k}, KeySet(store) + Stems(files) + {k});
      TransitiveOnSubset(NumericLess, KeySet(store) + Stems(init), KeySet(store) + Stems(files) + {k});
      LoadFilesLastWins(store, init, decode, k);
      if decode(f).Some? {
        var prev := LoadFiles(store, init, decode).0;
        LoadFilesKeepsSorted(store, init, decode);
        NumericKeyOrder();
        TransitiveOnSubset(NumericLess, KeySet(prev) + {Stem(f), k}, KeySet(store) + Stems(files) + {k});
        FindAfterAssignOther(NumericLess, prev, Stem(f), FromDecoded(decode(f).value), k);
      }
    }
  }

  /** The files a load visits whose decode succeeds: the stems a load can add. */
  lemma LoadAddsOnlySelectedStems(store: Store, dir: Directory, options: LoadOptions, decode: Decoder)
    requires dir.Listing?
    ensures KeySet(LoadImages(store, dir, options, decode).store) <= KeySet(store) + Stems(SelectedFiles(dir.entries, options))
    ensures Count(LoadImages(store, dir, options, decode).store) <= Count(store) + LoadImages(store, dir, options, decode).loaded
  {
  }

  /**
    Into a sorted map (a cleared one, say), a load of names that all
    convert to integers keeps the map sorted by value, and each name finds
    the last decoded file with the same value.
   */
  lemma NumericLoadOrderedByValue(store: Store, dir: Directory, options: LoadOptions, decode: Decoder, k: string)
    requires dir.Listing?
    requires Sorted(NumericLess, store)
    requires forall x :: x in KeySet(store) + Stems(SelectedFiles(dir.entries, options)) + {k} ==> Stoi(x).Some?
    ensures Sorted(NumericLess, LoadImages(store, dir, options, decode).store)
    ensures var files := SelectedFiles(dir.entries, options);
      Find(NumericLess, LoadImages(store, dir, options, decode).store, k) ==
        if LastDecoded(files, decode, k).Some? then LastDecoded(files, decode, k) else Find(NumericLess, store, k)
  {
    var files := SelectedFiles(dir.entries, options);
    ParsedNamesStrictWeakOrder(KeySet(store) + Stems(files) + {k});
    TransitiveOnSubset(NumericLess, KeySet(store) + Stems(files), KeySet(store) + Stems(files) + {k});
    LoadFilesKeepsSorted(store, files, decode);
    LoadFilesLastWins(store, files, decode, k);
  }

  // ---------------------------------------------------------------------------
  // A directory holding "1.png" and "01.png"

  function OneAndZeroOne(): seq<DirEntry> {
    [DirEntry("1.png", true), DirEntry("01.png", true)]
  }

  lemma OneAndZeroOneCandidates()
    ensures PngFiles(OneAndZeroOne()) == ["1.png", "01.png"]
  {
    PngNameIsCandidate("1", ".png");
    PngNameIsCandidate("01", ".png");
    assert "1" + ".png" == "1.png";
    assert "01" + ".png" == "01.png";
    TwoCandidates("1.png", "01.png");
  }

  /** A listing of two regular ".png" files yields both names, in listing order. */
  lemma TwoCandidates(a: string, b: string)
    requires IsPngCandidate(DirEntry(a, true)) && IsPngCandidate(DirEntry(b, true))
    ensures PngFiles([DirEntry(a, true), DirEntry(b, true)]) == [a, b]
  {
    var entries := [DirEntry(a, true), DirEntry(b, true)];
    var one := entries[..1];
    assert one == [DirEntry(a, true)] && one[..0] == [];
    assert PngFiles(one) == [a];
  }

  lemma OneAndZeroOneSelected()
    ensures SelectedFiles(OneAndZeroOne(), DefaultOptions()) == ["01.png", "1.png"]
  {
    OneAndZeroOneCandidates();
    assert LexLess("01.png", "1.png");
    SortTwo("01.png", "1.png");
  }

  /** Two names listed in descending order come out of the sort swapped. */
  lemma SortTwo(x: string, y: string)
    requires LexLess(x, y)
    ensures SortFileNames([y, x]) == [x, y]
  {
    LexAsymmetric(x, y);
    assert LexSorted([x, y]);
    assert multiset([y, x]) == multiset([x, y]);
    SortedPermutationUnique(SortFileNames([y, x]), [x, y]);
  }

  lemma OneAndZeroOneStems()
    ensures Stem("01.png") == "01" && Stem("1.png") == "1"
    ensures Stems(["01.png"]) == {"01"}
    ensures Stems(["01.png", "1.png"]) == {"01", "1"}
  {
    var ext := ".png";
    assert ext[0] == '.' && forall i :: 0 < i < |ext| ==> ext[i] != '.';
    SplitAtLastDot("1", ext);
    SplitAtLastDot("01", ext);
    assert "1" + ext == "1.png";
    assert "01" + ext == "01.png";
    StemsOfTwo("01.png", "1.png");
  }

  lemma StemsOfTwo(f1: string, f2: string)
    ensures Stems([f1]) == {Stem(f1)}
    ensures Stems([f1, f2]) == {Stem(f1), Stem(f2)}
  {
    var files := [f1, f2];
    assert Stem(files[0]) in Stems(files) && Stem(files[1]) in Stems(files);
    assert Stem([f1][0]) in Stems([f1]);
  }

  /**
    Both files decode and both count as loaded, but their stems convert to
    the same integer, so the map ends with one entry, holding the record of
    "1.png", the file visited last.
   */
  lemma SameValueFilesShareOneSlot(decode: Decoder)
    requires decode("01.png").Some? && decode("1.png").Some?
    ensures var r := LoadImages([], Listing(OneAndZeroOne()), DefaultOptions(), decode);
      r.ok && r.loaded == 2 && Count(r.store) == 1 &&
      Find(NumericLess, r.store, "1") == Some(FromDecoded(decode("1.png").value))
  {
    OneAndZeroOneSelected();
    OneAndZeroOneStems();
    SameValueNamesShareKey();
    EquivalentStemsShareOneSlot(decode, "01.png", "1.png");
  }

  /**
    Two files whose stems are equivalent under the comparator, both decoded:
    both count as loaded, the map keeps one entry, and the second file's
    record is the one found.
   */
  lemma EquivalentStemsShareOneSlot(decode: Decoder, f1: string, f2: string)
    requires decode(f1).Some? && decode(f2).Some?
    requires Equivalent(NumericLess, Stem(f1), Stem(f2))
    ensures var r := LoadFiles([], [f1, f2], decode);
      r.1 == 2 && |r.0| == 1 && Find(NumericLess, r.0, Stem(f2)) == Some(FromDecoded(decode(f2).value))
  {
    var files := [f1, f2];
    assert files[..1] == [f1];
    assert [f1][..0] == [];
    var first := LoadFiles([], [f1], decode);
    var one := Entry(Stem(f1), FromDecoded(decode(f1).value));
    assert Assign(NumericLess, [], Stem(f1), FromDecoded(decode(f1).value)) == [one] by {
      assert LowerBound(NumericLess, [], Stem(f1)) == 0;
    }
    assert LoadFiles([], [], decode) == ([], 0);
    assert first == ([one], 1);
    var r := LoadFiles([], files, decode);
    assert r == (Assign(NumericLess, [one], Stem(f2), FromDecoded(decode(f2).value)), 2);
    assert LowerBound(NumericLess, [one], Stem(f2)) == 0;
    NumericKeyOrder();
    FindAfterAssign(NumericLess, [one], Stem(f2), FromDecoded(decode(f2).value));
  }

  // ---------------------------------------------------------------------------
  // Record shapes

  /** The load loop only ever stores well-shaped records. */
  lemma {:induction false} LoadFilesKeepsWellShaped(store: Store, files: seq<string>, decode: Decoder)
    requires AllWellShaped(store)
    ensures AllWellShaped(LoadFiles(store, files, decode).0)
  {
    if |files| > 0 {
      var init := files[..|files| - 1];
      var f := files[|files| - 1];
      LoadFilesKeepsWellShaped(store, init, decode);
      if decode(f).Some? {
        AssignKeepsWellShaped(NumericLess, LoadFiles(store, init, decode).0, Stem(f), FromDecoded(decode(f).value));
      }
    }
  }

  /** After any load into a map of well-shaped records, every record is well-shaped. */
  lemma LoadImagesKeepsWellShaped(store: Store, dir: Directory, options: LoadOptions, decode: Decoder)
    requires AllWellShaped(store)
    ensures AllWellShaped(LoadImages(store, dir, options, decode).store)
  {
    if dir.Listing? {
      LoadFilesKeepsWellShaped(store, SelectedFiles(dir.entries, options), decode);
    }
  }
}
