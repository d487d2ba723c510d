/** The batch driver's scene collation (`collate_bands`) and its derivation
    of a scene's output directory (`generate_indicies`). Directory listings
    are given as data. */
module Collate {
  import opened Wrappers
  import opened Strings
  import Paths

  /** (token, key) pairs: a file whose name contains the token is stored
      under the key. Tested in order; the first match wins. */
  type Table = seq<(string, string)>

  /** The chain of tests as written: note that "B02" files go to key "B03". */
  const SourceTable: Table := [
    ("B01", "B01"), ("B02", "B03"), ("B03", "B03"), ("B04", "B04"), ("B05", "B05"),
    ("B06", "B06"), ("B07", "B07"), ("B08", "B08"), ("B8A", "B8A"), ("B09", "B09"),
    ("B10", "B10"), ("B11", "B11"), ("B12", "B12"), ("TCI", "TCI")]

  /** The same chain with every file stored under its own band code. */
  const CorrectedTable: Table := [
    ("B01", "B01"), ("B02", "B02"), ("B03", "B03"), ("B04", "B04"), ("B05", "B05"),
    ("B06", "B06"), ("B07", "B07"), ("B08", "B08"), ("B8A", "B8A"), ("B09", "B09"),
    ("B10", "B10"), ("B11", "B11"), ("B12", "B12"), ("TCI", "TCI")]

  /** The position of the first token the file name contains. */
  function FirstMatch(table: Table, file: string): (r: Option<nat>)
    ensures r.Some? ==> r.value < |table| && Contains(file, table[r.value].0)
    ensures r.Some? ==> forall j :: 0 <= j < r.value ==> !Contains(file, table[j].0)
    ensures r.None? ==> forall j :: 0 <= j < |table| ==> !Contains(file, table[j].0)
    decreases |table|
  {
    if |table| == 0 then None
    else if Contains(file, table[0].0) then Some(0)
    else match FirstMatch(table[1..], file)
         case None => None
         case Some(i) => Some(i + 1)
  }

  /** The first match is the position whose token occurs while no earlier
      one does. */
  lemma FirstMatchAt(table: Table, file: string, i: nat)
    requires i < |table| && Contains(file, table[i].0)
    requires forall j :: 0 <= j < i ==> !Contains(file, table[j].0)
    ensures FirstMatch(table, file) == Some(i)
  {
  }

  /** The key the `if`/`elif` chain stores a file under, if any. */
  function KeyFor(table: Table, file: string): Option<string>
  {
    match FirstMatch(table, file)
    case None => None
    case Some(i) => Some(table[i].1)
  }

  /** The name-to-key rule of a table. */
  function Classifier(table: Table): string -> Option<string>
  {
    file => KeyFor(table, file)
  }

  /** `bands` for one sub-directory: every listed name the rule gives a key
      to is stored, joined to the directory path, under that key, in listing
      order. */
  function CollateWith(dir: string, listing: seq<string>, keyOf: string -> Option<string>): map<string, string>
    decreases |listing|
  {
    if |listing| == 0 then map[]
    else
      var m := CollateWith(dir, listing[..|listing| - 1], keyOf);
      var file := listing[|listing| - 1];
      match keyOf(file)
      case None => m
      case Some(k) => m[k := Paths.Join(dir, file)]
  }

  /** The position of the last listed file the rule gives key `k`, if any. */
  function LastWith(listing: seq<string>, keyOf: string -> Option<string>, k: string): (r: Option<nat>)
    ensures r.Some? ==> r.value < |listing| && keyOf(listing[r.value]) == Some(k)
    ensures r.Some? ==> forall j :: r.value < j < |listing| ==> keyOf(listing[j]) != Some(k)
    ensures r.None? ==> forall j :: 0 <= j < |listing| ==> keyOf(listing[j]) != Some(k)
    decreases |listing|
  {
    if |listing| == 0 then None
    else if keyOf(listing[|listing| - 1]) == Some(k) then Some(|listing| - 1)
    else LastWith(listing[..|listing| - 1], keyOf, k)
  }

  /** A key is stored exactly when some listed file has it, and its value is
      the directory joined with the LAST such file: a later file overwrites
      an earlier one; files the rule gives no key are ignored. */
  lemma {:induction false} CollateWithLast(dir: string, listing: seq<string>, keyOf: string -> Option<string>, k: string)
    ensures var r := CollateWith(dir, listing, keyOf);
            var last := LastWith(listing, keyOf, k);
            && (k in r <==> last.Some?)
            && (k in r ==> r[k] == Paths.Join(dir, listing[last.value]))
    decreases |listing|
  {
    if |listing| > 0 {
      var front := listing[..|listing| - 1];
      CollateWithLast(dir, front, keyOf, k);
      var last := LastWith(front, keyOf, k);
      if last.Some? {
        assert front[last.value] == listing[last.value];
      }
    }
  }

  /** The dict `collate_bands` builds for one sub-directory with the
      source's chain of tests: a key is present exactly when some listed
      name is classified under it, and its value is the directory joined
      with the last such name. */
  function CollateDir(dir: string, listing: seq<string>, table: Table): (r: map<string, string>)
    ensures forall k :: k in r <==> LastWith(listing, Classifier(table), k).Some?
    ensures forall k :: k in r ==> r[k] == Paths.Join(dir, listing[LastWith(listing, Classifier(table), k).value])
  {
    var r := CollateWith(dir, listing, Classifier(table));
    assert forall k :: (k in r <==> LastWith(listing, Classifier(table), k).Some?)
                       && (k in r ==> r[k] == Paths.Join(dir, listing[LastWith(listing, Classifier(table), k).value])) by {
      forall k ensures (k in r <==> LastWith(listing, Classifier(table), k).Some?)
        && (k in r ==> r[k] == Paths.Join(dir, listing[LastWith(listing, Classifier(table), k).value])) {
        CollateWithLast(dir, listing, Classifier(table), k);
      }
    }
    r
  }

  /** A directory: what `os.listdir` returns for it, and its sub-directories
      in the order `os.walk` lists them. */
  datatype Dir = Dir(listing: seq<string>, children: seq<Entry>)
  datatype Entry = Entry(name: string, dir: Dir)

  /** `collate_bands(root)`: one dict per immediate sub-directory, in listing
      order; the walk stops after the root, so nothing deeper is visited. A
      root that cannot be walked (`None`) yields no dicts. */
  function CollateBands(root: string, top: Option<Dir>, table: Table): (r: seq<map<string, string>>)
    ensures top.None? ==> r == []
    ensures top.Some? ==> |r| == |top.value.children|
    ensures top.Some? ==> forall i :: 0 <= i < |r| ==>
              var e := top.value.children[i];
              r[i] == CollateDir(Paths.Join(root, e.name), e.dir.listing, table)
  {
    match top
    case None => []
    case Some(d) =>
      seq(|d.children|, i requires 0 <= i < |d.children| =>
        CollateDir(Paths.Join(root, d.children[i].name), d.children[i].dir.listing, table))
  }

  /** Files in the root itself and everything below the first level play no
      part: roots whose sub-directories have the same names and listings give
      the same dicts. */
  lemma DeeperIgnored(root: string, a: Dir, b: Dir, table: Table)
    requires |a.children| == |b.children|
    requires forall i :: 0 <= i < |a.children| ==>
               a.children[i].name == b.children[i].name &&
               a.children[i].dir.listing == b.children[i].dir.listing
    ensures CollateBands(root, Some(a), table) == CollateBands(root, Some(b), table)
  {
  }

  /** Every stored key is a key of the table. */
  lemma KeyIsTableKey(table: Table, file: string)
    requires KeyFor(table, file).Some?
    ensures exists i :: 0 <= i < |table| && table[i].1 == KeyFor(table, file).value
  {
    var i := FirstMatch(table, file).value;
    assert table[i].1 == KeyFor(table, file).value;
  }

  /** No entry of the chain as written has key "B02". */
  lemma SourceLacksB02()
    ensures forall i :: 0 <= i < |SourceTable| ==> SourceTable[i].1 != "B02"
  {
  }

  /** As written, "B02" is never a key: the B02 file is filed under "B03". */
  lemma NoB02Key(dir: string, listing: seq<string>)
    ensures "B02" !in CollateDir(dir, listing, SourceTable)
  {
    SourceLacksB02();
    var last := LastWith(listing, Classifier(SourceTable), "B02");
    if last.Some? {
      KeyIsTableKey(SourceTable, listing[last.value]);
    }
  }

  /** As written, a B02 file takes key "B03", and listed after the B03 file it
      replaces that file's entry. */
  lemma B02Misfiled(dir: string)
    ensures KeyFor(SourceTable, "B02") == Some("B03")
    ensures CollateDir(dir, ["B03", "B02"], SourceTable) == map["B03" := Paths.Join(dir, "B02")]
  {
    SourceFilesB02AsB03();
    SameKeyOverwrites(dir, "B03", "B02", Classifier(SourceTable), "B03");
  }

  /** Two files with the same key leave one entry: the second file's. */
  lemma {:induction false} SameKeyOverwrites(dir: string, a: string, b: string, keyOf: string -> Option<string>, k: string)
    requires keyOf(a) == Some(k) && keyOf(b) == Some(k)
    ensures CollateWith(dir, [a, b], keyOf) == map[k := Paths.Join(dir, b)]
  {
    var e := CollateWith(dir, [], keyOf);
    assert e == map[];
    assert [a][..0] == [];
    var m1 := CollateWith(dir, [a], keyOf);
    assert m1 == e[k := Paths.Join(dir, a)];
    assert [a, b][..1] == [a];
    assert CollateWith(dir, [a, b], keyOf) == m1[k := Paths.Join(dir, b)];
  }

  /** The chain as written gives both a B02 and a B03 file the key "B03". */
  lemma SourceFilesB02AsB03()
    ensures KeyFor(SourceTable, "B02") == Some("B03")
    ensures KeyFor(SourceTable, "B03") == Some("B03")
  {
    ContainsSameLength("B02", "B01");
    ContainsSameLength("B02", "B02");
    ContainsSameLength("B03", "B01");
    ContainsSameLength("B03", "B02");
    ContainsSameLength("B03", "B03");
    FirstMatchAt(SourceTable, "B02", 1);
    FirstMatchAt(SourceTable, "B03", 2);
  }

  /** Every entry of the corrected chain has its token as its key. */
  lemma CorrectedSelfKeyed()
    ensures forall i :: 0 <= i < |CorrectedTable| ==> CorrectedTable[i].0 == CorrectedTable[i].1
  {
  }

  /** With the corrected chain a file is stored under a band code its name
      contains, so each band keeps its own entry. */
  lemma CorrectedKeyIsContained(file: string)
    requires KeyFor(CorrectedTable, file).Some?
    ensures Contains(file, KeyFor(CorrectedTable, file).value)
  {
    CorrectedSelfKeyed();
  }

  /** The corrected chain files a B02 file under "B02". */
  lemma CorrectedB02()
    ensures KeyFor(CorrectedTable, "B02") == Some("B02")
  {
    ContainsSameLength("B02", "B01");
    ContainsSameLength("B02", "B02");
    FirstMatchAt(CorrectedTable, "B02", 1);
  }

  /** `os.path.sep + os.path.sep.join(bands["B01"].strip(os.path.sep).split(os.path.sep)[:-1])`:
      the separator followed by the B01 path's components, outer separators
      stripped, without the last component. A dict without "B01" raises
      KeyError. */
  function OutputDir(bands: map<string, string>): (r: Result<string, string>)
    ensures r.Success? <==> "B01" in bands
    ensures r.Success? ==> var s := Paths.Strip(bands["B01"], Paths.Sep);
      && r.value == "/" + (match Paths.LastIndex(s, Paths.Sep)
                           case None => ""
                           case Some(j) => s[..j])
      && (Paths.LastIndex(s, Paths.Sep).Some? ==> s == r.value[1..] + [Paths.Sep] + Paths.Basename(s))
  {
    if "B01" !in bands then Failure("KeyError")
    else
      var s := Paths.Strip(bands["B01"], Paths.Sep);
      var parts := Paths.Split(s, Paths.Sep);
      Paths.JoinAllButLast(s, Paths.Sep);
      Paths.BasenameIsAfterLastSep(s);
      Success([Paths.Sep] + Paths.JoinWith(parts[..|parts| - 1], Paths.Sep))
  }

  /** For a scene found under an absolute, normalised directory, the output
      directory is that directory again. */
  lemma OutputDirOfCollated(dir: string, listing: seq<string>, table: Table)
    requires |dir| > 1 && dir[0] == Paths.Sep && dir[1] != Paths.Sep && dir[|dir| - 1] != Paths.Sep
    requires forall i :: 0 <= i < |listing| ==> |listing[i]| > 0 && Paths.NoSep(listing[i])
    requires "B01" in CollateDir(dir, listing, table)
    ensures OutputDir(CollateDir(dir, listing, table)) == Success(dir)
  {
    var m := CollateDir(dir, listing, table);
    var i := LastWith(listing, Classifier(table), "B01").value;
    OutputDirOfJoin(m, dir, listing[i]);
  }

  /** A B01 path that is a plain name joined onto an absolute directory
      without doubled outer separators gives back that directory. */
  lemma OutputDirOfJoin(bands: map<string, string>, dir: string, name: string)
    requires |dir| > 1 && dir[0] == Paths.Sep && dir[1] != Paths.Sep && dir[|dir| - 1] != Paths.Sep
    requires |name| > 0 && Paths.NoSep(name)
    requires "B01" in bands && bands["B01"] == Paths.Join(dir, name)
    ensures OutputDir(bands) == Success(dir)
  {
    Paths.StripJoin(dir, name);
    var s := Paths.Strip(bands["B01"], Paths.Sep);
    assert s[..|dir| - 1] == dir[1..];
    assert [Paths.Sep] + dir[1..] == dir;
  }
}
