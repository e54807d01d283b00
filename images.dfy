/**
  The image search that both scripts carry as `find_image_by_model_and_color`:
  check that the image root exists, pick the first sub-directory whose name
  contains the model name (ignoring case), list that directory's candidates for
  the colour number with a glob, and return the smallest candidate. The two copies
  differ only in the glob, so the glob is a parameter here; each script's module
  supplies its own. The filesystem is given as data: the root's existence, its
  sub-directories in listing order, and each one's entries with their sizes.
*/
module Images {
  import opened Php

  /** A directory entry: its file name and its size in bytes (`filesize`). */
  datatype Entry = Entry(name: string, size: nat)

  /** A sub-directory of the image root and its entries, in listing order. */
  datatype Dir = Dir(name: string, entries: seq<Entry>)

  /** What `is_dir` and `glob($root . '*', GLOB_ONLYDIR)` report about the image root. */
  datatype Listing = Listing(rootIsDir: bool, dirs: seq<Dir>)

  /** A resolved image: the directory it was found in and the entry itself. */
  datatype Image = Image(dir: string, file: Entry)

  /** `stripos($dir_name, $model_name) !== false` */
  predicate NamesModel(d: Dir, model: string) {
    StrIPos(d.name, model).Some?
  }

  /** The first directory at index `from` or later whose name contains `model`. */
  function FirstModelDir(dirs: seq<Dir>, model: string, from: nat := 0): (r: Option<nat>)
    requires from <= |dirs|
    ensures r.Some? ==>
              && from <= r.value < |dirs| && NamesModel(dirs[r.value], model)
              && forall j :: from <= j < r.value ==> !NamesModel(dirs[j], model)
    ensures r.None? ==> forall j :: from <= j < |dirs| ==> !NamesModel(dirs[j], model)
    decreases |dirs| - from
  {
    if from == |dirs| then None
    else if NamesModel(dirs[from], model) then Some(from)
    else FirstModelDir(dirs, model, from + 1)
  }

  /** The directory loop: scan in listing order and stop at the first match. */
  method FindModelDir(dirs: seq<Dir>, model: string) returns (r: Option<nat>)
    ensures r == FirstModelDir(dirs, model)
  {
    var i := 0;
    while i < |dirs|
      invariant i <= |dirs|
      invariant FirstModelDir(dirs, model, i) == FirstModelDir(dirs, model)
    {
      if StrIPos(dirs[i].name, model).Some? {
        return Some(i);
      }
      i := i + 1;
    }
    return None;
  }

  /** The index of the first entry of least size. */
  function MinIndex(c: seq<Entry>): (k: nat)
    requires |c| > 0
    ensures k < |c|
    ensures forall j :: 0 <= j < |c| ==> c[k].size <= c[j].size
    ensures forall j :: 0 <= j < k ==> c[j].size > c[k].size
  {
    if |c| == 1 then 0
    else
      var k := MinIndex(c[..|c| - 1]);
      if c[|c| - 1].size < c[k].size then |c| - 1 else k
  }

  /** The two properties of `MinIndex` pin it down: an index of least size with
      every earlier entry strictly larger is `MinIndex`. */
  lemma MinIndexUnique(c: seq<Entry>, k: nat)
    requires k < |c|
    requires forall j :: 0 <= j < |c| ==> c[k].size <= c[j].size
    requires forall j :: 0 <= j < k ==> c[j].size > c[k].size
    ensures k == MinIndex(c)
  {
  }

  /** The argmin loop: `$smallest_size` starts at PHP_INT_MAX and an entry replaces
      the current choice only when it is strictly smaller, so ties keep the earlier
      entry, and no entry is chosen when none is smaller than PHP_INT_MAX. */
  method SmallestImage(c: seq<Entry>) returns (r: Option<nat>)
    ensures r == if |c| > 0 && c[MinIndex(c)].size < IntMax then Some(MinIndex(c)) else None
  {
    var smallestSize := IntMax;
    r := None;
    var i := 0;
    while i < |c|
      invariant i <= |c|
      invariant r == if i > 0 && c[MinIndex(c[..i])].size < IntMax then Some(MinIndex(c[..i])) else None
      invariant smallestSize == if r.Some? then c[r.value].size else IntMax
    {
      assert c[..i + 1][..i] == c[..i];
      if c[i].size < smallestSize {
        smallestSize := c[i].size;
        r := Some(i);
      }
      i := i + 1;
    }
    assert c[..|c|] == c;
  }

  /** What is returned once the candidates are known: nothing for no candidate,
      the only candidate without looking at its size, otherwise the argmin. */
  function Choose(dir: string, c: seq<Entry>): (r: Option<Image>)
    ensures r.Some? ==> r.value.dir == dir && r.value.file in c
  {
    if |c| == 0 then None
    else if |c| == 1 then Some(Image(dir, c[0]))
    else if c[MinIndex(c)].size < IntMax then Some(Image(dir, c[MinIndex(c)]))
    else None
  }

  /** `find_image_by_model_and_color` with the candidate glob `glob`. */
  function Resolve(listing: Listing, model: string, glob: seq<Entry> -> seq<Entry>): (r: Option<Image>)
    ensures r.Some? ==>
              && listing.rootIsDir && FirstModelDir(listing.dirs, model).Some?
              && r.value.dir == listing.dirs[FirstModelDir(listing.dirs, model).value].name
  {
    if !listing.rootIsDir then None
    else
      match FirstModelDir(listing.dirs, model)
      case None => None
      case Some(d) => Choose(listing.dirs[d].name, glob(listing.dirs[d].entries))
  }

  /** The search: nothing when the root is missing or no directory names the model;
      otherwise the first naming directory is the one searched, and what it gives
      is what the candidate choice gives for its glob. */
  lemma ResolveDirectory(listing: Listing, model: string, glob: seq<Entry> -> seq<Entry>)
    ensures !listing.rootIsDir ==> Resolve(listing, model, glob).None?
    ensures (forall j :: 0 <= j < |listing.dirs| ==> !NamesModel(listing.dirs[j], model)) ==>
              Resolve(listing, model, glob).None?
    ensures forall d :: 0 <= d < |listing.dirs| && listing.rootIsDir
                        && NamesModel(listing.dirs[d], model)
                        && (forall j :: 0 <= j < d ==> !NamesModel(listing.dirs[j], model)) ==>
              Resolve(listing, model, glob) == Choose(listing.dirs[d].name, glob(listing.dirs[d].entries))
    ensures Resolve(listing, model, glob).Some? ==>
              exists d :: 0 <= d < |listing.dirs|
                && NamesModel(listing.dirs[d], model)
                && (forall j :: 0 <= j < d ==> !NamesModel(listing.dirs[j], model))
                && Resolve(listing, model, glob) == Choose(listing.dirs[d].name, glob(listing.dirs[d].entries))
  {
    if listing.rootIsDir {
      var f := FirstModelDir(listing.dirs, model);
      if f.Some? {
        var d := f.value;
        assert Resolve(listing, model, glob) == Choose(listing.dirs[d].name, glob(listing.dirs[d].entries));
      }
    }
    forall d | 0 <= d < |listing.dirs| && listing.rootIsDir
               && NamesModel(listing.dirs[d], model)
               && (forall j :: 0 <= j < d ==> !NamesModel(listing.dirs[j], model))
      ensures Resolve(listing, model, glob) == Choose(listing.dirs[d].name, glob(listing.dirs[d].entries))
    {
      FirstModelDirIs(listing.dirs, model, d);
    }
  }

  /** The first naming directory is the one `FirstModelDir` finds. */
  lemma FirstModelDirIs(dirs: seq<Dir>, model: string, d: nat)
    requires d < |dirs| && NamesModel(dirs[d], model)
    requires forall j :: 0 <= j < d ==> !NamesModel(dirs[j], model)
    ensures FirstModelDir(dirs, model) == Some(d)
  {
  }

  /** The choice among candidates: nothing exactly when there is no candidate or
      several all of size PHP_INT_MAX or more; otherwise a candidate of least size
      such that every earlier candidate is strictly larger, or the only one. */
  lemma ChooseSmallest(dir: string, c: seq<Entry>)
    ensures Choose(dir, c).None? <==>
              |c| == 0 || (|c| > 1 && forall j :: 0 <= j < |c| ==> c[j].size >= IntMax)
    ensures Choose(dir, c).Some? ==>
              exists k :: 0 <= k < |c| && Choose(dir, c) == Some(Image(dir, c[k]))
                && (|c| > 1 ==> forall j :: 0 <= j < |c| ==> c[k].size <= c[j].size)
                && (forall j :: 0 <= j < k ==> c[j].size > c[k].size)
  {
    if |c| > 1 {
      var k := MinIndex(c);
      if c[k].size < IntMax {
        assert Choose(dir, c) == Some(Image(dir, c[k]));
      }
    } else if |c| == 1 {
      assert Choose(dir, c) == Some(Image(dir, c[0]));
    }
  }

  /** The whole search as the script runs it: the root check, the first-match
      directory loop, the glob and the argmin loop. */
  method FindImage(listing: Listing, model: string, glob: seq<Entry> -> seq<Entry>) returns (r: Option<Image>)
    ensures r == Resolve(listing, model, glob)
  {
    if !listing.rootIsDir {
      return None;
    }
    var d := FindModelDir(listing.dirs, model);
    if d.None? {
      return None;
    }
    var dir := listing.dirs[d.value];
    var images := glob(dir.entries);
    if |images| == 0 {
      return None;
    }
    if |images| > 1 {
      var k := SmallestImage(images);
      if k.Some? {
        return Some(Image(dir.name, images[k.value]));
      }
      return None;
    }
    return Some(Image(dir.name, images[0]));
  }
}
