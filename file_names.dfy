/**
 * File discovery and output naming in `convert` (main.py, lines 39-44 and 58).
 *
 * A directory is modelled by the sequence of its entry names, in the order
 * the file system lists them. Globbing `*<ext>` keeps the entries whose name
 * ends with `<ext>`, compared character by character. Suffix, stem and
 * `with_suffix` follow the rules of Python's `pathlib.PurePath`.
 */
module FileNames {

  /** The six extensions that `convert` globs for. */
  const ImageExtensions: set<string> := {".jpg", ".jpeg", ".JPG", ".JPEG", ".png", ".PNG"}

  /** The extension given to every output file. */
  const WebpSuffix: string := ".webp"

  predicate EndsWith(name: string, ext: string) {
    |ext| <= |name| && name[|name| - |ext|..] == ext
  }

  /** Whether `name` ends with one of the extensions in `exts`. */
  predicate HasExtensionIn(name: string, exts: set<string>) {
    exists e :: e in exts && EndsWith(name, e)
  }

  /** A name that `convert` collects. */
  predicate IsImageName(name: string) {
    HasExtensionIn(name, ImageExtensions)
  }

  /** Entries of `entries` that end with one of `exts`, in listing order. */
  function Matching(entries: seq<string>, exts: set<string>): (r: seq<string>)
    ensures forall n :: multiset(r)[n] == if HasExtensionIn(n, exts) then multiset(entries)[n] else 0
  {
    if entries == [] then []
    else
      var rest := Matching(entries[..|entries| - 1], exts);
      assert entries == entries[..|entries| - 1] + [entries[|entries| - 1]];
      if HasExtensionIn(entries[|entries| - 1], exts) then rest + [entries[|entries| - 1]] else rest
  }

  /** `directory.glob("*" + ext)`: the entries whose name ends with `ext`. */
  function Glob(entries: seq<string>, ext: string): (r: seq<string>)
    ensures forall n :: multiset(r)[n] == if EndsWith(n, ext) then multiset(entries)[n] else 0
  {
    assert forall n :: HasExtensionIn(n, {ext}) <==> EndsWith(n, ext);
    Matching(entries, {ext})
  }

  /** Every image name in `entries`, once per occurrence, in listing order. */
  function ImageNames(entries: seq<string>): seq<string> {
    Matching(entries, ImageExtensions)
  }

  /** No name occurs twice; a directory lists each entry once. */
  ghost predicate Distinct(s: seq<string>) {
    forall n :: multiset(s)[n] <= 1
  }

  /** Under case-sensitive matching no name ends with two different image extensions. */
  lemma ExtensionsExclusive(name: string, e1: string, e2: string)
    requires e1 in ImageExtensions && e2 in ImageExtensions
    requires EndsWith(name, e1) && EndsWith(name, e2)
    ensures e1 == e2
  {
    // The character four places from the end is the dot exactly for the
    // four-character extensions, so both extensions have the same length.
    ExtensionShape(e1);
    ExtensionShape(e2);
    assert name[|name| - 4] == e1[|e1| - 4];
    assert name[|name| - 4] == e2[|e2| - 4];
    assert |e1| == |e2|;
    assert e1 == name[|name| - |e1|..] == e2;
  }

  /** Globbing one more extension adds exactly the entries that no earlier glob matched. */
  lemma GlobStep(entries: seq<string>, done: set<string>, ext: string)
    requires done <= ImageExtensions && ext in ImageExtensions && ext !in done
    ensures multiset(Matching(entries, done)) + multiset(Glob(entries, ext)) ==
      multiset(Matching(entries, done + {ext}))
  {
    forall n
      ensures multiset(Matching(entries, done))[n] + multiset(Glob(entries, ext))[n] ==
        multiset(Matching(entries, done + {ext}))[n]
    {
      if HasExtensionIn(n, done) && EndsWith(n, ext) {
        var e :| e in done && EndsWith(n, e);
        ExtensionsExclusive(n, e, ext);
      }
      assert HasExtensionIn(n, done + {ext}) <==> HasExtensionIn(n, done) || EndsWith(n, ext);
    }
  }

  /**
   * The collection loop of lines 42-44: one glob per extension, in the
   * (unspecified) iteration order of the extension set, results appended.
   * Whatever that order is, the collected names are exactly the image names
   * of the directory, each as often as the directory lists it.
   */
  method CollectImageFiles(entries: seq<string>) returns (files: seq<string>)
    ensures multiset(files) == multiset(ImageNames(entries))
    ensures forall n :: n in files <==> n in entries && IsImageName(n)
    ensures Distinct(entries) ==> Distinct(files)
  {
    files := [];
    var remaining := ImageExtensions;
    while remaining != {}
      invariant remaining <= ImageExtensions
      invariant multiset(files) == multiset(Matching(entries, ImageExtensions - remaining))
      decreases remaining
    {
      var ext :| ext in remaining;
      GlobStep(entries, ImageExtensions - remaining, ext);
      files := files + Glob(entries, ext);
      assert ImageExtensions - (remaining - {ext}) == (ImageExtensions - remaining) + {ext};
      remaining := remaining - {ext};
    }
    assert ImageExtensions - remaining == ImageExtensions;
  }

  /** `str.rfind(c)`: the index of the last occurrence of `c`, or -1. */
  function LastIndexOf(s: string, c: char): (i: int)
    ensures -1 <= i < |s|
    ensures i >= 0 ==> s[i] == c
    ensures forall j :: i < j < |s| ==> s[j] != c
  {
    if s == [] then -1
    else if s[|s| - 1] == c then |s| - 1
    else LastIndexOf(s[..|s| - 1], c)
  }

  /**
   * `PurePath.suffix`: from the last dot on, provided that dot is neither
   * the first nor the last character of the name; otherwise empty.
   */
  function Suffix(name: string): (x: string)
    ensures x == "" || (EndsWith(name, x) && |x| >= 2 && x[0] == '.' && |x| < |name|)
    ensures x != "" ==> forall j :: 0 < j < |x| ==> x[j] != '.'
    ensures x != "" <==>
      exists k :: 0 < k < |name| - 1 && name[k] == '.' && forall j :: k < j < |name| ==> name[j] != '.'
  {
    var i := LastIndexOf(name, '.');
    if 0 < i < |name| - 1 then name[i..] else ""
  }

  /** `PurePath.stem`: the name without its suffix. */
  function Stem(name: string): (s: string)
    ensures s + Suffix(name) == name
    ensures name != "" ==> s != ""
  {
    name[..|name| - |Suffix(name)|]
  }

  /**
   * `PurePath.with_suffix(suffix)` for a well-formed suffix (a dot followed
   * by at least one character and no further dot): the stem followed by the
   * new suffix. The source raises an error for an empty name.
   */
  function WithSuffix(name: string, suffix: string): (r: string)
    requires name != ""
    requires |suffix| >= 2 && suffix[0] == '.' && forall j :: 0 < j < |suffix| ==> suffix[j] != '.'
    ensures Suffix(r) == suffix && Stem(r) == Stem(name)
  {
    var r := Stem(name) + suffix;
    assert LastIndexOf(r, '.') == |Stem(name)| by {
      assert r[|Stem(name)|] == '.';
      assert forall j :: |Stem(name)| < j < |r| ==> r[j] == suffix[j - |Stem(name)|];
    }
    assert r[|Stem(name)|..] == suffix;
    r
  }

  /** The output name of line 58: the input name with its suffix replaced by `.webp`. */
  function WebpName(name: string): (r: string)
    requires name != ""
    ensures Suffix(r) == WebpSuffix && Stem(r) == Stem(name)
  {
    WithSuffix(name, WebpSuffix)
  }

  /** Every collected name is non-empty, so naming its output cannot fail. */
  lemma ImageNameNotEmpty(name: string)
    requires IsImageName(name)
    ensures |name| >= 4
  {
    var e :| e in ImageExtensions && EndsWith(name, e);
  }

  /** An image extension is a dot followed by letters only. */
  lemma ExtensionShape(ext: string)
    requires ext in ImageExtensions
    ensures (|ext| == 4 || |ext| == 5) && ext[0] == '.' && forall j :: 0 < j < |ext| ==> ext[j] != '.'
    ensures ext[|ext| - 4] == '.' <==> |ext| == 4
    ensures ext[|ext| - 1] == 'g' || ext[|ext| - 1] == 'G'
  {
  }

  /**
   * For a collected name the output replaces exactly the matched extension by
   * `.webp`; only a name that is nothing but the extension (a hidden file
   * such as ".png") has no suffix and gets `.webp` appended. Either way the
   * output differs from the input.
   */
  lemma ImageWebpName(name: string, ext: string)
    requires ext in ImageExtensions && EndsWith(name, ext)
    ensures name != ""
    ensures name == ext ==> WebpName(name) == name + WebpSuffix
    ensures name != ext ==> Suffix(name) == ext && WebpName(name) == name[..|name| - |ext|] + WebpSuffix
    ensures WebpName(name) != name
  {
    ExtensionShape(ext);
    ReplaceExtension(name, ext);
    var out := WebpName(name);
    assert out[|out| - 1] == 'p';
    assert name[|name| - 1] == ext[|ext| - 1];
  }

  /** Replacing a dot-extension that a name ends with. */
  lemma ReplaceExtension(name: string, ext: string)
    requires |ext| >= 2 && ext[0] == '.' && forall j :: 0 < j < |ext| ==> ext[j] != '.'
    requires EndsWith(name, ext)
    ensures name == ext ==> WebpName(name) == name + WebpSuffix
    ensures name != ext ==> Suffix(name) == ext && WebpName(name) == name[..|name| - |ext|] + WebpSuffix
  {
    var k := |name| - |ext|;
    LastDotOfImageName(name, ext);
    if name != ext {
      assert k > 0;
      assert name[k..] == ext;
    }
  }

  /** The last dot of a collected name is the dot that starts its extension. */
  lemma LastDotOfImageName(name: string, ext: string)
    requires |ext| >= 1 && ext[0] == '.' && forall j :: 0 < j < |ext| ==> ext[j] != '.'
    requires EndsWith(name, ext)
    ensures LastIndexOf(name, '.') == |name| - |ext|
  {
    var k := |name| - |ext|;
    assert forall j :: k < j < |name| ==> name[j] == ext[j - k];
    LastIndexOfUnique(name, '.', k);
  }

  /** `rfind` is characterised by its contract: the last position holding `c`. */
  lemma LastIndexOfUnique(s: string, c: char, k: int)
    requires 0 <= k < |s| && s[k] == c
    requires forall j :: k < j < |s| ==> s[j] != c
    ensures LastIndexOf(s, c) == k
  {
  }

  /**
   * Two collected names that differ only in their image extension share one
   * output name, so the later save overwrites the earlier one.
   */
  lemma OutputNamesCollide(stem: string, e1: string, e2: string)
    requires stem != "" && e1 in ImageExtensions && e2 in ImageExtensions
    ensures WebpName(stem + e1) == WebpName(stem + e2) == stem + WebpSuffix
  {
    assert EndsWith(stem + e1, e1) by { assert (stem + e1)[|stem|..] == e1; }
    assert EndsWith(stem + e2, e2) by { assert (stem + e2)[|stem|..] == e2; }
    ImageWebpName(stem + e1, e1);
    ImageWebpName(stem + e2, e2);
    assert (stem + e1)[..|stem|] == stem;
    assert (stem + e2)[..|stem|] == stem;
  }
}
