/**
 The scan phase, `get_files`: list a directory, keep the regular files whose name has
 a UTF-8 extension that the table classifies, and pair each with its subdirectory.
 The directory listing is an input; reading it fails as a whole or entry by entry.
 */
module Scan {
  import opened Wrappers
  import opened Paths
  import opened Categories
  import opened Filtering

  /**
   A directory entry as the listing yields it: its file name, and whether its path
   satisfies `is_file()` (a regular file, following symbolic links).
   */
  datatype DirEntry = DirEntry(name: OsString, isFile: bool)

  /** One step of the listing iterator: an entry, or a per-entry I/O error. */
  datatype EntryRead = Read(entry: DirEntry) | ReadFailed

  /** The outcome of `fs::read_dir(directory)`: unreadable, or the entries in listing order. */
  datatype Listing = Unreadable | Listed(items: seq<EntryRead>)

  /** Why a scan failed: the directory could not be read, or the entry at `index` could not. */
  datatype ScanError = DirectoryReadError | EntryReadError(index: nat)

  /** `FileMatch`: an entry to move and the subdirectory it goes to. */
  datatype FileMatch = FileMatch(subdirectory: Subdirectory, entry: DirEntry)

  /** The extension of `name` as a string: `extension()` followed by `to_str()`. */
  function ExtensionStr(name: OsString): (r: Option<string>)
    ensures r.Some? <==> Extension(name).Some? && ToStr(Extension(name).value).Some?
    ensures r.Some? ==> Extension(name) == Some(FromStr(r.value))
  {
    match Extension(name)
    case None => None
    case Some(x) => ToStr(x)
  }

  /**
   The body of the loop in `get_files` for one entry under table `t`: skip non-files,
   names without an extension, extensions that are not UTF-8 and extensions no row
   lists; otherwise pair the entry with the subdirectory of the first row listing
   its extension.
   */
  function MatchEntry(t: Table, e: DirEntry): (r: Option<FileMatch>)
    ensures !e.isFile ==> r.None?
    ensures Extension(e.name).None? ==> r.None?
    ensures Extension(e.name).Some? && ToStr(Extension(e.name).value).None? ==> r.None?
    ensures r.Some? ==> r.value.entry == e
  {
    if !e.isFile then None
    else
      match ExtensionStr(e.name)
      case None => None
      case Some(x) =>
        match Classify(t, x)
        case None => None
        case Some(c) => Some(FileMatch(c, e))
  }

  /**
   A regular file whose extension is the string `ext` is kept exactly when `ext`
   classifies, and then goes to the subdirectory it classifies to.
   */
  lemma MatchEntryClassifies(t: Table, e: DirEntry, ext: string)
    requires e.isFile && Extension(e.name) == Some(FromStr(ext))
    ensures MatchEntry(t, e).Some? <==> Classify(t, ext).Some?
    ensures MatchEntry(t, e).Some? ==> MatchEntry(t, e).value.subdirectory == Classify(t, ext).value
  {
    ToStrFromStr(ext);
  }

  /**
   Every kept entry is a regular file whose name has an extension that decodes to a
   string classifying to the match's subdirectory.
   */
  lemma MatchedEntryClassifies(t: Table, e: DirEntry)
    requires MatchEntry(t, e).Some?
    ensures e.isFile
    ensures ExtensionStr(e.name).Some?
    ensures Extension(e.name) == Some(FromStr(ExtensionStr(e.name).value))
    ensures Classify(t, ExtensionStr(e.name).value) == Some(MatchEntry(t, e).value.subdirectory)
  {
  }

  /** A listing step's match, if it is an entry that matches. */
  function MatchItem(t: Table, it: EntryRead): Option<FileMatch>
  {
    match it
    case ReadFailed => None
    case Read(e) => MatchEntry(t, e)
  }

  /** The outcome of the loop body for every step of the listing, position by position. */
  function MatchAll(t: Table, items: seq<EntryRead>): seq<Option<FileMatch>>
  {
    seq(|items|, i requires 0 <= i < |items| => MatchItem(t, items[i]))
  }

  /**
   The matches of `items`, in listing order, as the loop accumulates them: the k-th
   match is the match of the entry at the k-th kept position, so there is at most
   one per entry.
   */
  function Matches(t: Table, items: seq<EntryRead>): (r: seq<FileMatch>)
    ensures |r| <= |items|
    ensures |r| == |KeptIndices(t, items)|
    ensures forall k :: 0 <= k < |r| ==> MatchItem(t, items[KeptIndices(t, items)[k]]) == Some(r[k])
  {
    SomesAtIndices(MatchAll(t, items));
    Somes(MatchAll(t, items))
  }

  /**
   The positions of the entries that the scan keeps, in increasing order: exactly the
   positions whose entry matches.
   */
  function KeptIndices(t: Table, items: seq<EntryRead>): (r: seq<nat>)
    ensures forall k :: 0 <= k < |r| ==> r[k] < |items|
    ensures forall k, l :: 0 <= k < l < |r| ==> r[k] < r[l]
    ensures forall i :: 0 <= i < |items| ==> (i in r <==> MatchItem(t, items[i]).Some?)
  {
    SomeIndices(MatchAll(t, items))
  }

  /**
   The scan result is the order-preserving subsequence of the listing at the kept
   positions: the k-th match is the match of the k-th kept entry, and each entry
   yields at most one match. This is a named restatement of `Matches`' own
   contract, for callers that reason about the listing positions.
   */
  lemma MatchesAreKeptSubsequence(t: Table, items: seq<EntryRead>)
    ensures |Matches(t, items)| == |KeptIndices(t, items)|
    ensures forall k :: 0 <= k < |Matches(t, items)| ==>
              MatchItem(t, items[KeptIndices(t, items)[k]]) == Some(Matches(t, items)[k])
  {
    SomesAtIndices(MatchAll(t, items));
  }

  /**
   Soundness and completeness of the scan: a match is in the result exactly when some
   entry of the listing produces it.
   */
  lemma MatchesSoundAndComplete(t: Table, items: seq<EntryRead>, m: FileMatch)
    ensures m in Matches(t, items) <==> exists i :: 0 <= i < |items| && MatchItem(t, items[i]) == Some(m)
  {
    var os := MatchAll(t, items);
    SomesMembership(os, m);
    if i :| 0 <= i < |items| && MatchItem(t, items[i]) == Some(m) {
      assert os[i] == Some(m);
    }
  }

  /** One more step of the listing adds its match, if it has one. */
  lemma MatchesSnoc(t: Table, items: seq<EntryRead>, i: nat)
    requires i < |items|
    ensures Matches(t, items[..i + 1]) ==
      Matches(t, items[..i]) + (if MatchItem(t, items[i]).Some? then [MatchItem(t, items[i]).value] else [])
  {
    assert MatchAll(t, items[..i + 1]) == MatchAll(t, items[..i]) + [MatchItem(t, items[i])];
    SomesSnoc(MatchAll(t, items[..i]), MatchItem(t, items[i]));
  }

  /** The position of the first listing step that failed, at or after `k`. */
  function FirstReadFailureFrom(items: seq<EntryRead>, k: nat): (r: Option<nat>)
    requires k <= |items|
    requires forall j :: 0 <= j < k ==> items[j].Read?
    ensures r.None? ==> forall j :: 0 <= j < |items| ==> items[j].Read?
    ensures r.Some? ==> r.value < |items| && items[r.value].ReadFailed?
    ensures r.Some? ==> forall j :: 0 <= j < r.value ==> items[j].Read?
    decreases |items| - k
  {
    if k == |items| then None
    else if items[k].ReadFailed? then Some(k)
    else FirstReadFailureFrom(items, k + 1)
  }

  /**
   `get_files`: the matches of a readable listing, or the error of the directory or
   of the first entry that could not be read; no partial result survives an error.
   */
  function GetFiles(t: Table, listing: Listing): (r: Result<seq<FileMatch>, ScanError>)
    ensures listing.Unreadable? ==> r == Err(DirectoryReadError)
    ensures listing.Listed? && r.Err? ==>
              r.error.EntryReadError? && r.error.index < |listing.items| &&
              listing.items[r.error.index].ReadFailed? &&
              forall j :: 0 <= j < r.error.index ==> listing.items[j].Read?
    ensures r.Ok? ==> listing.Listed? && forall j :: 0 <= j < |listing.items| ==> listing.items[j].Read?
    ensures r.Ok? ==> r.value == Matches(t, listing.items)
  {
    match listing
    case Unreadable => Err(DirectoryReadError)
    case Listed(items) =>
      match FirstReadFailureFrom(items, 0)
      case Some(i) => Err(EntryReadError(i))
      case None => Ok(Matches(t, items))
  }

  /**
   The loop of `get_files` as written: iterate the listing, return on the first
   failed step, and for each regular file with a UTF-8 extension push a match for
   the first row listing it.
   */
  method GetFilesLoop(t: Table, listing: Listing) returns (r: Result<seq<FileMatch>, ScanError>)
    ensures r == GetFiles(t, listing)
  {
    if listing.Unreadable? {
      return Err(DirectoryReadError);
    }
    var items := listing.items;
    var acc: seq<FileMatch> := [];
    var i := 0;
    while i < |items|
      invariant 0 <= i <= |items|
      invariant forall j :: 0 <= j < i ==> items[j].Read?
      invariant acc == Matches(t, items[..i])
    {
      MatchesSnoc(t, items, i);
      match items[i]
      case ReadFailed =>
        assert FirstReadFailureFrom(items, i) == Some(i);
        FirstFailureSkipsReads(items, 0, i);
        return Err(EntryReadError(i));
      case Read(e) =>
        if e.isFile {
          var ext := ExtensionStr(e.name);
          if ext.Some? {
            var c := MatchExtension(t, ext.value);
            if c.Some? {
              acc := acc + [FileMatch(c.value, e)];
            }
          }
        }
      i := i + 1;
    }
    assert items[..i] == items;
    FirstFailureSkipsReads(items, 0, i);
    return Ok(acc);
  }

  /** Starting the failure search later, past entries that were read, changes nothing. */
  lemma {:induction false} FirstFailureSkipsReads(items: seq<EntryRead>, k: nat, i: nat)
    requires k <= i <= |items|
    requires forall j :: 0 <= j < i ==> items[j].Read?
    ensures FirstReadFailureFrom(items, k) == FirstReadFailureFrom(items, i)
    decreases i - k
  {
    if k < i {
      FirstFailureSkipsReads(items, k + 1, i);
    }
  }

  /** The file name `b.png` has the extension `png`. */
  lemma PngExtension()
    ensures Extension(FromStr("b.png")) == Some(FromStr("png"))
  {
    var name := FromStr("b.png");
    assert name == [Ch('b'), Dot, Ch('p'), Ch('n'), Ch('g')];
    var s4, s3, s2 := name[..4], name[..3], name[..2];
    assert s4[..3] == s3 && s3[..2] == s2;
    assert s2[1] == Dot && s3[2] != Dot && s4[3] != Dot && name[4] != Dot;
    assert LastDot(s2) == Some(1);
    assert LastDot(s3) == Some(1);
    assert LastDot(s4) == Some(1);
    assert LastDot(name) == Some(1);
    assert name[2..] == FromStr("png");
  }

  /** Scanning a directory whose only entry is `e` keeps `e` exactly when it matches. */
  lemma ScanSingleEntry(t: Table, e: DirEntry)
    ensures GetFiles(t, Listed([Read(e)])) ==
      Ok(if MatchEntry(t, e).Some? then [MatchEntry(t, e).value] else [])
  {
    var items := [Read(e)];
    assert MatchItem(t, items[0]) == MatchEntry(t, e);
    assert MatchAll(t, items) == [] + [MatchEntry(t, e)];
    SomesSnoc([], MatchEntry(t, e));
    assert Somes<FileMatch>([]) == [];
    assert FirstReadFailureFrom(items, 1) == None;
    assert FirstReadFailureFrom(items, 0) == None;
    assert Matches(t, items) == (if MatchEntry(t, e).Some? then [MatchEntry(t, e).value] else []);
    assert GetFiles(t, Listed(items)) == Ok(Matches(t, items));
  }

  /** Under the baseline table, a directory holding the regular file `b.png` yields no match. */
  lemma ScanPngBaseline()
    ensures GetFiles(DirFileMapTable, Listed([Read(DirEntry(FromStr("b.png"), true))])) == Ok([])
  {
    var e := DirEntry(FromStr("b.png"), true);
    PngExtension();
    BaselineTyposUnmatched();
    MatchEntryClassifies(DirFileMapTable, e, "png");
    ScanSingleEntry(DirFileMapTable, e);
  }

  /** Under the corrected table, the same directory yields `b.png` for Pictures. */
  lemma ScanPngCorrected()
    ensures var e := DirEntry(FromStr("b.png"), true);
      GetFiles(CorrectedTable, Listed([Read(e)])) == Ok([FileMatch(Pictures, e)])
  {
    var e := DirEntry(FromStr("b.png"), true);
    PngExtension();
    CorrectedClassifiesIntended();
    MatchEntryClassifies(CorrectedTable, e, "png");
    ScanSingleEntry(CorrectedTable, e);
  }
}
