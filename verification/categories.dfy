/**
 The classifier: the closed set of category subdirectories, their names, and the
 ordered extension table that `get_files` walks to pick a file's category.
 */
module Categories {
  import opened Wrappers

  /** The `Subdirectories` enum. */
  datatype Subdirectory = Archives | Code | Documents | Music | Pictures | Videos

  /** The label of a category, read back into the category (the inverse of `Name`). */
  function FromName(n: string): Option<Subdirectory>
  {
    if n == "Archives" then Some(Archives)
    else if n == "Code" then Some(Code)
    else if n == "Documents" then Some(Documents)
    else if n == "Music" then Some(Music)
    else if n == "Pictures" then Some(Pictures)
    else if n == "Videos" then Some(Videos)
    else None
  }

  /**
   `as_ref`: the relative path of a category's subdirectory, which is its label; the
   label reads back as the category.
   */
  function Name(s: Subdirectory): (r: string)
    ensures FromName(r) == Some(s)
  {
    match s
    case Archives => "Archives"
    case Code => "Code"
    case Documents => "Documents"
    case Music => "Music"
    case Pictures => "Pictures"
    case Videos => "Videos"
  }

  /**
   Every subdirectory name is a single non-empty path component that reads back as
   its category, so distinct categories have distinct subdirectories.
   */
  lemma NameRoundTrip(s: Subdirectory)
    ensures FromName(Name(s)) == Some(s)
    ensures |Name(s)| > 0 && '/' !in Name(s)
  {
  }

  /** Distinct categories have distinct subdirectory names. */
  lemma NameInjective(a: Subdirectory, b: Subdirectory)
    requires Name(a) == Name(b)
    ensures a == b
  {
    NameRoundTrip(a);
    NameRoundTrip(b);
  }

  /**
   One `DirFileMap` row: a subdirectory and the extensions that go there. The source
   keeps the extensions in a slice and only ever asks whether it contains a string,
   so a set says the same.
   */
  datatype DirFileMap = DirFileMap(subdirectory: Subdirectory, filetypes: set<string>)

  type Table = seq<DirFileMap>

  /** The filetypes of each `DIR_FILE_MAP` row, with the strings exactly as written. */
  const ArchivesTypes: set<string> := {"tar", "gz", "xz", "bz2", "zip", "7z", "rar", "dmg,"}
  const MusicTypes: set<string> := {"mp3", "mp4a", "wav"}
  const PicturesTypes: set<string> := {"jpg", "jpeg", "gif", "bmp", "pmg", "svg", "heif"}
  const VideosTypes: set<string> := {"mp4", "mkv", "mov"}
  const DocumentsTypes: set<string> :=
    {"pdf", "epub", "doc", "docx", "xls", "xlsx", "ppt", "pptx", "odt", "rtf", "md"}
  const CodeTypes: set<string> :=
    {"py", "rs", "rb", "html", "htm", "js", "jar", "java", "c", "cpp", "toml", "json",
     "yaml", "tex", "cs", "nix", "pl", "h", "hpp", "css", "php", "swift", "go", "lua",
     "ts", "scss", "sass", "dart", "sql", "ini", "sh", "bash", "zsh", "ps1", "fish",
     "r", "yml", "bat", "cmd", "asm"}

  /**
   `DIR_FILE_MAP`, in declaration order. Its strings include the literal entries
   "dmg," (with a trailing comma) and "pmg", so `dmg` and `png` are listed nowhere.
   */
  const DirFileMapTable: Table := [
    DirFileMap(Archives, ArchivesTypes),
    DirFileMap(Music, MusicTypes),
    DirFileMap(Pictures, PicturesTypes),
    DirFileMap(Videos, VideosTypes),
    DirFileMap(Documents, DocumentsTypes),
    DirFileMap(Code, CodeTypes)
  ]

  /** Row `i` is the first row of `t` whose filetypes contain `ext`. */
  predicate IsFirstMatch(t: Table, ext: string, i: nat)
  {
    i < |t| && ext in t[i].filetypes && forall j :: 0 <= j < i ==> ext !in t[j].filetypes
  }

  /** No row of `t` lists `ext`. */
  predicate NoRowLists(t: Table, ext: string)
  {
    forall j :: 0 <= j < |t| ==> ext !in t[j].filetypes
  }

  /** The first row at or after `k` whose filetypes contain `ext` (exact, case-sensitive). */
  function FirstMatchFrom(t: Table, ext: string, k: nat): (r: Option<nat>)
    requires k <= |t|
    requires forall j :: 0 <= j < k ==> ext !in t[j].filetypes
    ensures r.Some? ==> IsFirstMatch(t, ext, r.value)
    ensures r.None? ==> NoRowLists(t, ext)
    decreases |t| - k
  {
    if k == |t| then None
    else if ext in t[k].filetypes then Some(k)
    else FirstMatchFrom(t, ext, k + 1)
  }

  /** The index of the row that decides `ext`, scanning the table in order. */
  function FirstMatch(t: Table, ext: string): (r: Option<nat>)
    ensures r.Some? ==> IsFirstMatch(t, ext, r.value)
    ensures r.None? ==> NoRowLists(t, ext)
  {
    FirstMatchFrom(t, ext, 0)
  }

  /**
   The category an extension classifies to under table `t`: the subdirectory of the
   first row listing it, or `None` (NoMatch) when no row does.
   */
  function Classify(t: Table, ext: string): (r: Option<Subdirectory>)
    ensures r.None? <==> NoRowLists(t, ext)
    ensures r.Some? ==> exists i: nat :: IsFirstMatch(t, ext, i) && t[i].subdirectory == r.value
  {
    match FirstMatch(t, ext)
    case None => None
    case Some(i) => Some(t[i].subdirectory)
  }

  /**
   The lookup loop of `get_files`: walk the rows in order and stop at the first one
   whose filetypes contain the extension.
   */
  method MatchExtension(t: Table, ext: string) returns (r: Option<Subdirectory>)
    ensures r == Classify(t, ext)
  {
    r := None;
    var k := 0;
    while k < |t|
      invariant 0 <= k <= |t|
      invariant forall j :: 0 <= j < k ==> ext !in t[j].filetypes
    {
      if ext in t[k].filetypes {
        assert IsFirstMatch(t, ext, k);
        FirstMatchUnique(t, ext, k, FirstMatch(t, ext).value);
        r := Some(t[k].subdirectory);
        return;
      }
      k := k + 1;
    }
  }

  /** At most one row is the first match. */
  lemma FirstMatchUnique(t: Table, ext: string, i: nat, j: nat)
    requires IsFirstMatch(t, ext, i) && IsFirstMatch(t, ext, j)
    ensures i == j
  {
  }

  /** No extension is listed by two different rows. */
  predicate PairwiseDisjoint(t: Table)
  {
    forall i, j, e :: 0 <= i < j < |t| && e in t[i].filetypes ==> e !in t[j].filetypes
  }

  /** Every row names a different subdirectory. */
  predicate DistinctSubdirectories(t: Table)
  {
    forall i, j :: 0 <= i < j < |t| ==> t[i].subdirectory != t[j].subdirectory
  }

  /** The subdirectories the rows of `t` name. */
  function RowSubdirectories(t: Table): (r: set<Subdirectory>)
    ensures forall i :: 0 <= i < |t| ==> t[i].subdirectory in r
    ensures forall s :: s in r ==> exists i :: 0 <= i < |t| && t[i].subdirectory == s
  {
    set i | 0 <= i < |t| :: t[i].subdirectory
  }

  /** Every category has a row. */
  predicate Covers(t: Table)
  {
    forall s: Subdirectory :: s in RowSubdirectories(t)
  }

  /*
   Disjointness of the baseline rows, one earlier row at a time: each row's
   extensions are absent from every later row.
   */
  lemma ArchivesDisjoint()
    ensures forall e :: e in ArchivesTypes ==>
      e !in MusicTypes && e !in PicturesTypes && e !in VideosTypes && e !in DocumentsTypes && e !in CodeTypes
  {
  }

  lemma MusicDisjoint()
    ensures forall e :: e in MusicTypes ==>
      e !in PicturesTypes && e !in VideosTypes && e !in DocumentsTypes && e !in CodeTypes
  {
  }

  lemma PicturesDisjoint()
    ensures forall e :: e in PicturesTypes ==> e !in VideosTypes && e !in DocumentsTypes && e !in CodeTypes
  {
  }

  lemma VideosDisjoint()
    ensures forall e :: e in VideosTypes ==> e !in DocumentsTypes && e !in CodeTypes
  {
  }

  lemma DocumentsDisjoint()
    ensures forall e :: e in DocumentsTypes ==> e !in CodeTypes
  {
  }

  /** No extension is listed by two rows of the baseline table. */
  lemma BaselineDisjoint()
    ensures PairwiseDisjoint(DirFileMapTable)
  {
    var t := DirFileMapTable;
    ArchivesDisjoint();
    MusicDisjoint();
    PicturesDisjoint();
    VideosDisjoint();
    DocumentsDisjoint();
    forall i, j, e | 0 <= i < j < |t| && e in t[i].filetypes
      ensures e !in t[j].filetypes
    {
      if i == 0 {
        assert e in ArchivesTypes;
      } else if i == 1 {
        assert e in MusicTypes;
      } else if i == 2 {
        assert e in PicturesTypes;
      } else if i == 3 {
        assert e in VideosTypes;
      } else {
        assert e in DocumentsTypes;
      }
    }
  }

  /**
   The baseline table has six rows naming six different subdirectories, one for every
   category, and no extension is listed by two rows.
   */
  lemma BaselineTableWellFormed()
    ensures |DirFileMapTable| == 6
    ensures PairwiseDisjoint(DirFileMapTable)
    ensures DistinctSubdirectories(DirFileMapTable)
    ensures Covers(DirFileMapTable)
  {
    var t := DirFileMapTable;
    BaselineDisjoint();
    forall s: Subdirectory
      ensures s in RowSubdirectories(t)
    {
      match s
      case Archives => assert t[0].subdirectory == s;
      case Music => assert t[1].subdirectory == s;
      case Pictures => assert t[2].subdirectory == s;
      case Videos => assert t[3].subdirectory == s;
      case Documents => assert t[4].subdirectory == s;
      case Code => assert t[5].subdirectory == s;
    }
  }

  /**
   With pairwise-disjoint rows, an extension classifies to a category exactly when
   some row of that category lists it: the row order plays no part.
   */
  lemma {:induction false} ClassifyByMembership(t: Table, ext: string, c: Subdirectory)
    requires PairwiseDisjoint(t)
    ensures Classify(t, ext) == Some(c) <==>
      exists i :: 0 <= i < |t| && t[i].subdirectory == c && ext in t[i].filetypes
  {
    if exists i :: 0 <= i < |t| && t[i].subdirectory == c && ext in t[i].filetypes {
      var i :| 0 <= i < |t| && t[i].subdirectory == c && ext in t[i].filetypes;
      assert FirstMatch(t, ext) == Some(i);
    }
  }

  /**
   Reordering a pairwise-disjoint table (any permutation of its rows) never changes
   how an extension is classified.
   */
  lemma {:induction false} DisjointOrderIrrelevant(t: Table, u: Table, ext: string)
    requires PairwiseDisjoint(t)
    requires multiset(t) == multiset(u)
    ensures Classify(t, ext) == Classify(u, ext)
  {
    match FirstMatch(u, ext)
    case None =>
      forall k | 0 <= k < |t|
        ensures ext !in t[k].filetypes
      {
        assert t[k] in multiset(u);
      }
    case Some(j) =>
      assert u[j] in multiset(t);
      var i :| 0 <= i < |t| && t[i] == u[j];
      assert ext in t[i].filetypes;
      ClassifyByMembership(t, ext, u[j].subdirectory);
  }

  /**
   Under the baseline table an extension classifies to `c` exactly when `c`'s row
   lists it, whatever the order of the rows.
   */
  lemma BaselineClassifyIffListed(ext: string, c: Subdirectory)
    ensures Classify(DirFileMapTable, ext) == Some(c) <==> ext in FiletypesOf(DirFileMapTable, c)
  {
    BaselineTableWellFormed();
    ClassifyByMembership(DirFileMapTable, ext, c);
  }

  /** The union of the filetypes of `c`'s rows in `t`. */
  function FiletypesOf(t: Table, c: Subdirectory): (r: set<string>)
    ensures forall e :: e in r <==> exists i :: 0 <= i < |t| && t[i].subdirectory == c && e in t[i].filetypes
  {
    if |t| == 0 then {}
    else (if t[0].subdirectory == c then t[0].filetypes else {}) + FiletypesOf(t[1..], c)
  }

  /** The first row listing an extension decides its category. */
  lemma ClassifyAt(t: Table, ext: string, i: nat)
    requires IsFirstMatch(t, ext, i)
    ensures Classify(t, ext) == Some(t[i].subdirectory)
  {
    FirstMatchUnique(t, ext, i, FirstMatch(t, ext).value);
  }

  /**
   Concrete classifications under the baseline table: `zip`, `mp3` and `rs` land in
   Archives, Music and Code.
   */
  lemma BaselineMatches()
    ensures Classify(DirFileMapTable, "zip") == Some(Archives)
    ensures Classify(DirFileMapTable, "mp3") == Some(Music)
    ensures Classify(DirFileMapTable, "rs") == Some(Code)
  {
    var t := DirFileMapTable;
    ClassifyAt(t, "zip", 0);
    ClassifyAt(t, "mp3", 1);
    BaselineTableWellFormed();
    ClassifyAt(t, "rs", 5);
  }

  /**
   The Archives and Pictures rows list the literal strings "dmg," and "pmg", and
   those are what classify there.
   */
  lemma BaselineLiteralQuirks()
    ensures Classify(DirFileMapTable, "dmg,") == Some(Archives)
    ensures Classify(DirFileMapTable, "pmg") == Some(Pictures)
  {
    var t := DirFileMapTable;
    ClassifyAt(t, "dmg,", 0);
    ClassifyAt(t, "pmg", 2);
  }

  /**
   Matching is exact: `dmg` and `png`, which the literals "dmg," and "pmg" were
   evidently meant to list, classify to nothing under the baseline table, so such
   files are never moved.
   */
  lemma BaselineTyposUnmatched()
    ensures Classify(DirFileMapTable, "dmg") == None
    ensures Classify(DirFileMapTable, "png") == None
  {
    assert NoRowLists(DirFileMapTable, "dmg");
    assert NoRowLists(DirFileMapTable, "png");
  }

  /** Matching is case-sensitive: `MP3` classifies to nothing although `mp3` is listed. */
  lemma BaselineCaseSensitive()
    ensures Classify(DirFileMapTable, "MP3") == None
    ensures Classify(DirFileMapTable, "mp3") == Some(Music)
  {
    assert NoRowLists(DirFileMapTable, "MP3");
    ClassifyAt(DirFileMapTable, "mp3", 1);
  }

  /** The Archives and Pictures filetypes with "dmg," read as `dmg` and "pmg" as `png`. */
  const CorrectedArchivesTypes: set<string> := ArchivesTypes - {"dmg,"} + {"dmg"}
  const CorrectedPicturesTypes: set<string> := PicturesTypes - {"pmg"} + {"png"}

  /** `DIR_FILE_MAP` as evidently intended: the baseline with those two rows corrected. */
  const CorrectedTable: Table := [
    DirFileMap(Archives, CorrectedArchivesTypes),
    DirFileMap(Music, MusicTypes),
    DirFileMap(Pictures, CorrectedPicturesTypes),
    DirFileMap(Videos, VideosTypes),
    DirFileMap(Documents, DocumentsTypes),
    DirFileMap(Code, CodeTypes)
  ]

  /** Each corrected row lists its baseline row's extensions, and at most `dmg` or `png` besides. */
  lemma CorrectedRowsNearBaseline()
    ensures |CorrectedTable| == |DirFileMapTable|
    ensures forall i :: 0 <= i < |CorrectedTable| ==>
      CorrectedTable[i].subdirectory == DirFileMapTable[i].subdirectory &&
      CorrectedTable[i].filetypes <= DirFileMapTable[i].filetypes + {"dmg", "png"}
  {
  }

  /** The corrected table keeps the baseline's shape: disjoint rows, one per category. */
  lemma CorrectedTableWellFormed()
    ensures |CorrectedTable| == 6
    ensures PairwiseDisjoint(CorrectedTable)
    ensures DistinctSubdirectories(CorrectedTable)
    ensures Covers(CorrectedTable)
  {
    var t := CorrectedTable;
    var b := DirFileMapTable;
    BaselineTableWellFormed();
    BaselineTyposUnmatched();
    CorrectedRowsNearBaseline();
    forall i, j, e | 0 <= i < j < |t| && e in t[i].filetypes
      ensures e !in t[j].filetypes
    {
      if e in b[i].filetypes {
        assert e != "dmg" && e != "png";
      } else if e == "dmg" {
        assert i == 0;
      } else {
        assert i == 2;
      }
    }
    forall s: Subdirectory
      ensures s in RowSubdirectories(t)
    {
      assert s in RowSubdirectories(b);
      var i :| 0 <= i < |b| && b[i].subdirectory == s;
      assert t[i].subdirectory == s;
    }
  }

  /** Two tables that agree row by row on subdirectory and on listing `ext` classify it alike. */
  lemma ClassifyAgrees(t: Table, u: Table, ext: string)
    requires |t| == |u|
    requires forall i :: 0 <= i < |t| ==> t[i].subdirectory == u[i].subdirectory
    requires forall i :: 0 <= i < |t| ==> (ext in t[i].filetypes <==> ext in u[i].filetypes)
    ensures Classify(t, ext) == Classify(u, ext)
  {
    match FirstMatch(t, ext)
    case None =>
    case Some(i) => ClassifyAt(u, ext, i);
  }

  /** The corrected table sends `dmg` to Archives and `png` to Pictures. */
  lemma CorrectedClassifiesIntended()
    ensures Classify(CorrectedTable, "dmg") == Some(Archives)
    ensures Classify(CorrectedTable, "png") == Some(Pictures)
  {
    var t := CorrectedTable;
    BaselineTyposUnmatched();
    assert DirFileMapTable[0].filetypes == ArchivesTypes;
    assert DirFileMapTable[1].filetypes == MusicTypes;
    ClassifyAt(t, "dmg", 0);
    ClassifyAt(t, "png", 2);
  }

  /** Under the corrected table the literals "dmg," and "pmg" classify to nothing. */
  lemma CorrectedDropsTypos()
    ensures Classify(CorrectedTable, "dmg,") == None
    ensures Classify(CorrectedTable, "pmg") == None
  {
    CorrectedTableWellFormed();
    CorrectedRowsNearBaseline();
    ArchivesDisjoint();
    MusicDisjoint();
    PicturesDisjoint();
    var t := CorrectedTable;
    var b := DirFileMapTable;
    forall j | 0 <= j < |t|
      ensures "dmg," !in t[j].filetypes && "pmg" !in t[j].filetypes
    {
      if j != 0 && j != 2 {
        assert t[j] == b[j];
      }
    }
  }

  /** Every other extension classifies under the corrected table as under the baseline. */
  lemma CorrectedAgreesElsewhere(ext: string)
    requires ext !in {"dmg,", "dmg", "pmg", "png"}
    ensures Classify(CorrectedTable, ext) == Classify(DirFileMapTable, ext)
  {
    ClassifyAgrees(CorrectedTable, DirFileMapTable, ext);
  }

  /**
   When two rows list the same extension, the earlier row wins, so swapping them
   changes the answer.
   */
  lemma OverlapFirstWins(ext: string, a: Subdirectory, b: Subdirectory)
    ensures Classify([DirFileMap(a, {ext}), DirFileMap(b, {ext})], ext) == Some(a)
    ensures Classify([DirFileMap(b, {ext}), DirFileMap(a, {ext})], ext) == Some(b)
  {
  }
}
