/** load_databases of config.py: the catalogue of databases built from the
    files of the database directory and the metadata map. */
module Config {
  import opened Text

  const DbSuffix := ".db"
  const DefaultDescription := "No description"
  const DefaultIcon := "📁"

  /** One value of metadata.json: what the user said about a database. */
  datatype Meta = Meta(name: string, description: string, icon: string)

  /** One catalogue entry: the display data and the path of the file. */
  datatype DbEntry = DbEntry(name: string, description: string, icon: string, file: string)

  predicate EndsWith(s: string, suffix: string) {
    |suffix| <= |s| && s[|s| - |suffix|..] == suffix
  }

  /** filename.replace('.db', ''): every occurrence is removed, not only the suffix. */
  function DeriveKey(filename: string): string {
    ReplaceAll(filename, DbSuffix, "")
  }

  /** One character of str.title(): a letter is upper-cased when the previous
      character is not a letter, lower-cased when it is one. */
  function TitleChar(c: char, prevCased: bool): char {
    if !IsLetter(c) then c else if prevCased then Lower(c) else Upper(c)
  }

  function TitleFrom(s: string, prevCased: bool): (r: string)
    ensures |r| == |s|
    ensures forall i :: 0 <= i < |s| ==>
              r[i] == TitleChar(s[i], if i == 0 then prevCased else IsLetter(s[i - 1]))
  {
    if s == [] then []
    else
      var rest := TitleFrom(s[1..], IsLetter(s[0]));
      assert forall i :: 1 <= i < |s| ==> s[1..][i - 1] == s[i];
      [TitleChar(s[0], prevCased)] + rest
  }

  /** str.title() on ASCII text. */
  function Title(s: string): (r: string)
    ensures |r| == |s|
    ensures forall i :: 0 <= i < |s| ==> r[i] == TitleChar(s[i], i > 0 && IsLetter(s[i - 1]))
  {
    TitleFrom(s, false)
  }

  /** The display name of a database without metadata: key.replace('_', ' ').title(). */
  function DefaultName(key: string): (r: string)
    ensures |r| == |key|
    ensures forall i :: 0 <= i < |key| && key[i] == '_' ==> r[i] == ' '
    ensures forall i :: 0 <= i < |key| && key[i] != '_' ==>
              r[i] == TitleChar(key[i], i > 0 && key[i - 1] != '_' && IsLetter(key[i - 1]))
  {
    var spaced := ReplaceAll(key, "_", " ");
    ReplaceCharAt(key, '_', ' ');
    assert forall i :: 0 <= i < |key| ==> spaced[i] == (if key[i] == '_' then ' ' else key[i]);
    var r := Title(spaced);
    assert forall i :: 0 <= i < |key| && key[i] == '_' ==> r[i] == TitleChar(' ', i > 0 && IsLetter(spaced[i - 1]));
    r
  }

  /** posixpath.join(a, b) for two components. */
  function PathJoin(a: string, b: string): string {
    if b != [] && b[0] == '/' then b
    else if a == [] || a[|a| - 1] == '/' then a + b
    else a + "/" + b
  }

  /** The entry a .db file contributes. */
  function EntryFor(dir: string, metadata: map<string, Meta>, filename: string): DbEntry {
    var key := DeriveKey(filename);
    var file := PathJoin(dir, filename);
    if key in metadata then
      DbEntry(metadata[key].name, metadata[key].description, metadata[key].icon, file)
    else
      DbEntry(DefaultName(key), DefaultDescription, DefaultIcon, file)
  }

  /** The catalogue after visiting the given directory entries in order. */
  function Catalogue(dir: string, listing: seq<string>, metadata: map<string, Meta>): map<string, DbEntry> {
    if listing == [] then map[]
    else
      var filename := listing[|listing| - 1];
      var before := Catalogue(dir, listing[..|listing| - 1], metadata);
      if EndsWith(filename, DbSuffix) then before[DeriveKey(filename) := EntryFor(dir, metadata, filename)]
      else before
  }

  /** The metadata the loader works with: the file's map, or an empty one when there is no file. */
  function MetadataOrEmpty(file: Option<map<string, Meta>>): map<string, Meta> {
    if file.Some? then file.value else map[]
  }

  /** load_databases: scans the directory listing and fills the catalogue. */
  method LoadDatabases(dir: string, listing: seq<string>, metadataFile: Option<map<string, Meta>>)
    returns (databases: map<string, DbEntry>)
    ensures databases == Catalogue(dir, listing, MetadataOrEmpty(metadataFile))
  {
    var metadata := if metadataFile.Some? then metadataFile.value else map[];
    databases := map[];
    for i := 0 to |listing|
      invariant databases == Catalogue(dir, listing[..i], metadata)
    {
      var filename := listing[i];
      if EndsWith(filename, DbSuffix) {
        var key := DeriveKey(filename);
        var path := PathJoin(dir, filename);
        if key in metadata {
          databases := databases[key := DbEntry(metadata[key].name, metadata[key].description, metadata[key].icon, path)];
        } else {
          databases := databases[key := DbEntry(DefaultName(key), DefaultDescription, DefaultIcon, path)];
        }
      }
      assert listing[..i + 1][..i] == listing[..i];
    }
    assert listing[..|listing|] == listing;
  }

  // ---------------------------------------------------------------------
  // Properties of the catalogue
  // ---------------------------------------------------------------------

  /** The keys are exactly the keys derived from the .db files of the listing. */
  lemma {:induction false} CatalogueKeys(dir: string, listing: seq<string>, metadata: map<string, Meta>, key: string)
    ensures key in Catalogue(dir, listing, metadata) <==>
            exists i :: 0 <= i < |listing| && EndsWith(listing[i], DbSuffix) && DeriveKey(listing[i]) == key
  {
    if listing != [] {
      var pre := listing[..|listing| - 1];
      CatalogueKeys(dir, pre, metadata, key);
      assert forall i :: 0 <= i < |pre| ==> pre[i] == listing[i];
      if key in Catalogue(dir, listing, metadata) && key !in Catalogue(dir, pre, metadata) {
        assert EndsWith(listing[|listing| - 1], DbSuffix) && DeriveKey(listing[|listing| - 1]) == key;
      }
      if exists i :: 0 <= i < |listing| && EndsWith(listing[i], DbSuffix) && DeriveKey(listing[i]) == key {
        var i :| 0 <= i < |listing| && EndsWith(listing[i], DbSuffix) && DeriveKey(listing[i]) == key;
        if i < |pre| {
          assert EndsWith(pre[i], DbSuffix) && DeriveKey(pre[i]) == key;
        }
      }
    }
  }

  /** The entry for a key comes from the last .db file of the listing with that key:
      its file is the directory joined with that filename; its name, description
      and icon are copied from the metadata when the key is there, and are the
      defaults otherwise. */
  lemma {:induction false} CatalogueEntry(dir: string, listing: seq<string>, metadata: map<string, Meta>, i: nat)
    requires i < |listing| && EndsWith(listing[i], DbSuffix)
    requires forall j :: i < j < |listing| && EndsWith(listing[j], DbSuffix) ==> DeriveKey(listing[j]) != DeriveKey(listing[i])
    ensures var key := DeriveKey(listing[i]);
            key in Catalogue(dir, listing, metadata) &&
            var e := Catalogue(dir, listing, metadata)[key];
            e.file == PathJoin(dir, listing[i]) &&
            (key in metadata ==> e.name == metadata[key].name && e.description == metadata[key].description
                                 && e.icon == metadata[key].icon) &&
            (key !in metadata ==> e.name == DefaultName(key) && e.description == DefaultDescription
                                  && e.icon == DefaultIcon)
  {
    if i < |listing| - 1 {
      var pre := listing[..|listing| - 1];
      assert pre[i] == listing[i];
      assert forall j :: i < j < |pre| ==> pre[j] == listing[j];
      CatalogueEntry(dir, pre, metadata, i);
    }
  }

  /** A filename made from a key without '.' and the suffix gives that key back. */
  lemma {:induction false} DeriveKeyOfDbFile(key: string)
    requires '.' !in key
    ensures DeriveKey(key + DbSuffix) == key
  {
    var s := key + DbSuffix;
    if key == [] {
      assert s[..3] == DbSuffix;
      assert s[3..] == [];
      assert DeriveKey(s) == "" + ReplaceAll([], DbSuffix, "");
    } else {
      assert s[0] == key[0];
      assert s[..3] != DbSuffix;
      assert s[1..] == key[1..] + DbSuffix;
      DeriveKeyOfDbFile(key[1..]);
    }
  }
}
