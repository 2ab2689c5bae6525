/**
 * The image catalog (`get_files`, labelling_app.py): the entries of the image
 * directory whose lower-cased suffix is ".jpg", ".jpeg" or ".png", sorted.
 * Directory entries are their names; the download step that fills the
 * directory and the process-wide memoization are outside this model.
 */
module ImageCatalog {
  import opened Wrappers
  import opened StringOrder

  /** The extensions `get_files` keeps. */
  const ImageSuffixes: seq<string> := [".jpg", ".jpeg", ".png"]

  /** Index of the last '.' in `name` (`str.rfind`), or None. */
  function LastDot(name: string): (r: Option<nat>)
    ensures r.None? ==> forall k :: 0 <= k < |name| ==> name[k] != '.'
    ensures r.Some? ==> r.value < |name| && name[r.value] == '.'
    ensures r.Some? ==> forall k :: r.value < k < |name| ==> name[k] != '.'
  {
    if name == [] then None
    else if name[|name| - 1] == '.' then Some(|name| - 1)
    else
      var r := LastDot(name[..|name| - 1]);
      assert forall k :: 0 <= k < |name| - 1 ==> name[..|name| - 1][k] == name[k];
      r
  }

  /**
   * `PurePath.suffix`: the text from the last dot, provided that dot is
   * neither the first nor the last character of the name; otherwise empty.
   */
  function Suffix(name: string): (r: string)
    ensures r == [] || (2 <= |r| < |name| && r == name[|name| - |r|..] && r[0] == '.')
    ensures forall k :: 0 < k < |r| ==> r[k] != '.'
  {
    match LastDot(name)
    case Some(i) =>
      if 0 < i < |name| - 1 then
        assert forall k :: 0 < k < |name| - i ==> name[i..][k] == name[i + k];
        name[i..]
      else []
    case None => []
  }

  /** The suffix is non-empty exactly when the last dot is neither the first nor the last character. */
  lemma SuffixPresent(name: string)
    ensures Suffix(name) != [] <==>
      exists i :: 0 < i < |name| - 1 && name[i] == '.' && forall k :: i < k < |name| ==> name[k] != '.'
  {
    var r := Suffix(name);
    if r != [] {
      var i := |name| - |r|;
      assert name[i] == r[0];
      assert forall k :: i < k < |name| ==> name[k] == r[k - i];
    }
  }

  /** When the last dot sits strictly inside the name, the suffix is the text from it. */
  lemma SuffixAt(name: string, i: nat)
    requires 0 < i < |name| - 1 && name[i] == '.'
    requires forall k :: i < k < |name| ==> name[k] != '.'
    ensures Suffix(name) == name[i..]
  {
    var d := LastDot(name);
    assert d == Some(i);
  }

  /** Lower-cases an ASCII capital and leaves every other character alone. */
  function LowerChar(c: char): (r: char)
  {
    if 'A' <= c <= 'Z' then (c as int + 32) as char else c
  }

  /** `str.lower` on the ASCII letters. */
  function Lower(s: string): (r: string)
    ensures |r| == |s|
    ensures forall i :: 0 <= i < |s| ==> r[i] == LowerChar(s[i])
  {
    seq(|s|, i requires 0 <= i < |s| => LowerChar(s[i]))
  }

  /** Lower-casing leaves no ASCII capital behind, so applying it twice changes nothing. */
  lemma LowerIdempotent(s: string)
    ensures forall i :: 0 <= i < |s| ==> !('A' <= Lower(s)[i] <= 'Z')
    ensures Lower(Lower(s)) == Lower(s)
  {
  }

  /** An image name ends in a dot and three or four more characters, and has text before the dot. */
  lemma ImageNameShape(name: string)
    requires IsImage(name)
    ensures 4 <= |Suffix(name)| <= 5 && |Suffix(name)| < |name|
    ensures name[|name| - |Suffix(name)|] == '.'
  {
  }

  /** The filter of `get_files`. */
  predicate IsImage(name: string)
  {
    Lower(Suffix(name)) in ImageSuffixes
  }

  /** Lower-casing a name lower-cases its suffix: it moves no dot. */
  lemma SuffixOfLower(name: string)
    ensures Suffix(Lower(name)) == Lower(Suffix(name))
  {
    var ln := Lower(name);
    match LastDot(name)
    case None =>
      assert LastDot(ln).None?;
    case Some(i) =>
      assert forall k :: 0 <= k < |name| ==> (ln[k] == '.' <==> name[k] == '.');
      assert LastDot(ln) == Some(i);
      if 0 < i < |name| - 1 {
        assert Lower(name[i..]) == ln[i..];
      }
  }

  /** The filter ignores case: a name passes exactly when its lower-cased form does. */
  lemma CaseInsensitive(name: string)
    ensures IsImage(Lower(name)) == IsImage(name)
  {
    SuffixOfLower(name);
    LowerIdempotent(Suffix(name));
  }

  /** The entries that pass the filter, in directory order (the list comprehension). */
  function ImageEntries(entries: seq<string>): (r: seq<string>)
    ensures multiset(r) <= multiset(entries)
  {
    if entries == [] then []
    else
      var rest := ImageEntries(entries[1..]);
      assert entries == [entries[0]] + entries[1..];
      if IsImage(entries[0]) then [entries[0]] + rest else rest
  }

  /** The filter keeps exactly the entries with an image suffix. */
  lemma {:induction false} ImageEntriesMembers(entries: seq<string>)
    ensures forall x :: x in ImageEntries(entries) <==> x in entries && IsImage(x)
  {
    if entries != [] {
      ImageEntriesMembers(entries[1..]);
      assert entries == [entries[0]] + entries[1..];
    }
  }

  /** `get_files`: the image entries, sorted. */
  function Catalog(entries: seq<string>): (r: seq<string>)
    ensures Sorted(r)
    ensures multiset(r) == multiset(ImageEntries(entries))
    ensures Distinct(entries) ==> Distinct(r)
  {
    var images := ImageEntries(entries);
    SortSpec(images);
    assert Distinct(entries) ==> Distinct(Sort(images)) by {
      if Distinct(entries) {
        DistinctSubMultiset(Sort(images), entries);
      }
    }
    Sort(images)
  }

  /** The catalog holds exactly the directory entries with an image suffix. */
  lemma CatalogMembers(entries: seq<string>)
    ensures forall x :: x in Catalog(entries) <==> x in entries && IsImage(x)
  {
    ImageEntriesMembers(entries);
    forall x ensures x in Catalog(entries) <==> x in multiset(ImageEntries(entries)) {
    }
  }

  /** Any sorted rearrangement of the image entries is the catalog. */
  lemma CatalogIsTheSortedListing(entries: seq<string>, listing: seq<string>)
    requires Sorted(listing) && multiset(listing) == multiset(ImageEntries(entries))
    ensures listing == Catalog(entries)
  {
    SortedUnique(listing, Catalog(entries));
  }

  /** A directory without image entries gives an empty catalog. */
  lemma NoImagesEmptyCatalog(entries: seq<string>)
    requires forall e :: e in entries ==> !IsImage(e)
    ensures Catalog(entries) == []
  {
    NoImageEntries(entries);
    assert |Catalog(entries)| == |multiset(Catalog(entries))| == 0;
  }

  lemma {:induction false} NoImageEntries(entries: seq<string>)
    requires forall e :: e in entries ==> !IsImage(e)
    ensures ImageEntries(entries) == []
  {
    if entries != [] {
      assert entries[0] in entries;
      NoImageEntries(entries[1..]);
      assert entries == [entries[0]] + entries[1..];
    }
  }

  /** Case does not matter: an upper-case extension passes. */
  lemma UpperCaseExtension()
    ensures IsImage("a.JPG")
  {
    SuffixAt("a.JPG", 1);
    assert Lower(".JPG") == ".jpg";
  }

  /** Case does not matter: a mixed-case extension passes. */
  lemma MixedCaseExtension()
    ensures IsImage("boat.Jpeg")
  {
    SuffixAt("boat.Jpeg", 4);
    assert Lower(".Jpeg") == ".jpeg";
  }

  /** Only the text after the last dot counts: an earlier extension does not hide an image one. */
  lemma LastExtensionPasses()
    ensures IsImage("x.tar.png")
  {
    SuffixAt("x.tar.png", 5);
    assert Suffix("x.tar.png") == ".png";
    assert Lower(".png") == ".png";
  }

  /** Only the text after the last dot counts: an earlier image extension does not pass. */
  lemma LastExtensionFails()
    ensures !IsImage("a.png.txt")
  {
    SuffixAt("a.png.txt", 5);
    assert Suffix("a.png.txt") == ".txt";
    assert Lower(".txt") == ".txt";
  }

  /** A leading dot, a trailing dot or no dot at all gives no suffix. */
  lemma NamesWithoutSuffix()
    ensures !IsImage(".jpg") && !IsImage("png") && !IsImage("a.")
  {
  }
}
