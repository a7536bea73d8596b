/**
 * Folder emulation over a flat key space: a prefix is "" or a sequence of
 * `/`-terminated components, and every key the client computes (parent
 * prefix, display names, copy/move destinations, new folders, uploads) is
 * string arithmetic on the current prefix.
 */
module Paths {
  import opened Js

  /** Component lists whose members can appear between slashes: non-empty, slash-free. */
  predicate ValidParts(parts: seq<string>) {
    forall i :: 0 <= i < |parts| ==> parts[i] != [] && '/' !in parts[i]
  }

  /** `prefix.split('/').filter(p => p)`: the non-empty `/`-components. */
  function Components(prefix: string): (parts: seq<string>)
    ensures ValidParts(parts)
  {
    var pieces := Split(prefix, '/');
    var parts := NonEmpty(pieces);
    assert forall i :: 0 <= i < |parts| ==> parts[i] in pieces;
    parts
  }

  /** The prefix naming a component list: each component followed by `/`; the empty list names "". */
  function PrefixOf(parts: seq<string>): string
    decreases |parts|
  {
    if parts == [] then [] else parts[0] + "/" + PrefixOf(parts[1..])
  }

  /** A prefix in normal form: "" or `c1/c2/.../cn/` with non-empty components. */
  predicate Canonical(prefix: string) {
    PrefixOf(Components(prefix)) == prefix
  }

  lemma {:induction false} PrefixOfSnoc(parts: seq<string>, c: string)
    ensures PrefixOf(parts + [c]) == PrefixOf(parts) + c + "/"
    decreases |parts|
  {
    if parts == [] {
      assert [] + [c] == [c];
    } else {
      assert (parts + [c])[1..] == parts[1..] + [c];
      PrefixOfSnoc(parts[1..], c);
    }
  }

  /** A non-empty prefix built from components ends with `/`. */
  lemma PrefixOfShape(parts: seq<string>)
    ensures parts == [] <==> PrefixOf(parts) == []
    ensures parts != [] ==> PrefixOf(parts)[|PrefixOf(parts)| - 1] == '/'
  {
    if parts != [] {
      var init := parts[..|parts| - 1];
      assert init + [parts[|parts| - 1]] == parts;
      PrefixOfSnoc(init, parts[|parts| - 1]);
    }
  }

  lemma {:induction false} SplitPrefixOf(parts: seq<string>)
    requires ValidParts(parts)
    ensures Split(PrefixOf(parts), '/') == parts + [[]]
    decreases |parts|
  {
    if parts != [] {
      SplitPrefixOf(parts[1..]);
      SplitAfterPiece(parts[0], '/', PrefixOf(parts[1..]));
      assert parts[0] + "/" + PrefixOf(parts[1..]) == parts[0] + ['/'] + PrefixOf(parts[1..]);
      assert [parts[0]] + (parts[1..] + [[]]) == parts + [[]];
    }
  }

  /** Reading the components back from a prefix built from valid components gives those components. */
  lemma ComponentsOfPrefix(parts: seq<string>)
    requires ValidParts(parts)
    ensures Components(PrefixOf(parts)) == parts
  {
    SplitPrefixOf(parts);
    NonEmptyAppend(parts, [[]]);
    NonEmptyKeepsValid(parts);
  }

  lemma {:induction false} NonEmptyKeepsValid(parts: seq<string>)
    requires ValidParts(parts)
    ensures NonEmpty(parts) == parts
    decreases |parts|
  {
    if parts != [] {
      NonEmptyKeepsValid(parts[1..]);
      assert [parts[0]] + parts[1..] == parts;
    }
  }

  /** Every prefix built from components is canonical. */
  lemma PrefixOfCanonical(parts: seq<string>)
    requires ValidParts(parts)
    ensures Canonical(PrefixOf(parts))
  {
    ComponentsOfPrefix(parts);
  }

  /** A canonical prefix is "" or ends with `/`. */
  lemma CanonicalShape(prefix: string)
    requires Canonical(prefix)
    ensures prefix == [] || prefix[|prefix| - 1] == '/'
  {
    PrefixOfShape(Components(prefix));
  }

  // ---------------------------------------------------------------------------
  // Parent prefix (the ".." entry)

  /**
   * Split into non-empty components, drop the last, join with `/` and append
   * `/` when anything is left.
   */
  function ParentPrefix(prefix: string): string {
    var parts := Components(prefix);
    var kept := if parts == [] then parts else parts[..|parts| - 1];
    Join(kept, '/') + (if |kept| > 0 then "/" else "")
  }

  lemma {:induction false} JoinThenSlash(parts: seq<string>)
    requires parts != []
    ensures Join(parts, '/') + "/" == PrefixOf(parts)
    decreases |parts|
  {
    if |parts| > 1 {
      JoinThenSlash(parts[1..]);
    }
  }

  /**
   * The parent drops exactly the last non-empty component: its components are
   * those of `prefix` minus the last, it is canonical, and it is "" or ends
   * with `/`.
   */
  lemma ParentDropsLastComponent(prefix: string)
    ensures var parts := Components(prefix);
      Components(ParentPrefix(prefix)) == (if parts == [] then [] else parts[..|parts| - 1])
    ensures Canonical(ParentPrefix(prefix))
    ensures ParentPrefix(prefix) == [] || ParentPrefix(prefix)[|ParentPrefix(prefix)| - 1] == '/'
  {
    var parts := Components(prefix);
    var kept := if parts == [] then parts else parts[..|parts| - 1];
    if kept != [] {
      JoinThenSlash(kept);
    }
    assert ParentPrefix(prefix) == PrefixOf(kept);
    ComponentsOfPrefix(kept);
    PrefixOfShape(kept);
  }

  /** Going up from `p + c + "/"` returns to the canonical prefix `p`. */
  lemma ParentOfChild(prefix: string, c: string)
    requires Canonical(prefix)
    requires c != [] && '/' !in c
    ensures ParentPrefix(prefix + c + "/") == prefix
  {
    var parts := Components(prefix);
    PrefixOfSnoc(parts, c);
    assert ValidParts(parts + [c]);
    ComponentsOfPrefix(parts + [c]);
    assert (parts + [c])[..|parts|] == parts;
    ParentDropsLastComponent(prefix + c + "/");
  }

  /** The two documented examples ("a/b/" goes up to "a/", "a/" to the root) and the root itself. */
  lemma ParentExamples(root: string, a: string, ab: string)
    requires root == "" && a == "a/" && ab == "a/b/"
    ensures ParentPrefix(ab) == a && ParentPrefix(a) == root && ParentPrefix(root) == root
  {
    var x, y := "a", "b";
    assert PrefixOf([]) == root;
    assert Canonical(root) by { assert Split(root, '/') == [[]]; }
    assert root + x + "/" == a;
    ParentOfChild(root, x);
    assert PrefixOf([x]) == a;
    PrefixOfCanonical([x]);
    assert a + y + "/" == ab;
    ParentOfChild(a, y);
    ParentDropsLastComponent(root);
  }

  // ---------------------------------------------------------------------------
  // Display names

  /** A folder entry's name: remove the first occurrence of the prefix, then the first `/`. */
  function FolderName(folder: string, prefix: string): string {
    RemoveFirst(RemoveFirst(folder, prefix), "/")
  }

  /** A file entry's name: remove the first occurrence of the prefix. */
  function FileName(key: string, prefix: string): string {
    RemoveFirst(key, prefix)
  }

  /** A folder one level below the prefix is shown by its own component name. */
  lemma FolderNameOfChild(prefix: string, name: string)
    requires '/' !in name
    ensures FolderName(prefix + name + "/", prefix) == name
  {
    var folder := prefix + name + "/";
    assert prefix <= folder;
    LeadingOccurrenceIsFirst(folder, prefix);
    assert folder[|prefix|..] == name + ['/'] + [];
    FirstSeparator(name, '/', []);
  }

  /** A file under the prefix is shown by the rest of its key, so prefix + name gives back the key. */
  lemma FileNameUnderPrefix(key: string, prefix: string)
    requires prefix <= key
    ensures FileName(key, prefix) == key[|prefix|..]
    ensures prefix + FileName(key, prefix) == key
  {
    LeadingOccurrenceIsFirst(key, prefix);
  }

  /** At the root (prefix "") a file is shown by its whole key. */
  lemma FileNameAtRoot(key: string)
    ensures FileName(key, "") == key
  {
    RemoveEmpty(key);
  }

  /** "docs/reports/" under "docs/" is shown as "reports". */
  lemma FolderNameExample(prefix: string, folder: string)
    requires prefix == "docs/" && folder == "docs/reports/"
    ensures FolderName(folder, prefix) == "reports"
  {
    var name := "reports";
    assert '/' !in name;
    assert prefix + name + "/" == folder;
    FolderNameOfChild(prefix, name);
  }

  /** "docs/readme.txt" under "docs/" is shown as "readme.txt". */
  lemma FileNameExample(prefix: string, file: string)
    requires prefix == "docs/" && file == "docs/readme.txt"
    ensures FileName(file, prefix) == "readme.txt"
  {
    assert prefix <= file;
    FileNameUnderPrefix(file, prefix);
    assert file[|prefix|..] == "readme.txt";
  }

  // ---------------------------------------------------------------------------
  // Keys the client sends

  /** Copy/move destination: the destination path followed by the source key with the first occurrence of the current prefix removed. */
  function DestKey(destPath: string, srcKey: string, prefix: string): string {
    destPath + RemoveFirst(srcKey, prefix)
  }

  /** For a key under the current prefix the destination re-roots the key's remainder under `destPath`. */
  lemma DestKeyRebases(destPath: string, srcKey: string, prefix: string)
    requires prefix <= srcKey
    ensures DestKey(destPath, srcKey, prefix) == destPath + srcKey[|prefix|..]
    ensures destPath <= DestKey(destPath, srcKey, prefix)
  {
    LeadingOccurrenceIsFirst(srcKey, prefix);
  }

  /** Copying back from the destination path to the original prefix reproduces the source key. */
  lemma DestKeyRoundTrip(destPath: string, srcKey: string, prefix: string)
    requires prefix <= srcKey
    ensures DestKey(prefix, DestKey(destPath, srcKey, prefix), destPath) == srcKey
  {
    DestKeyRebases(destPath, srcKey, prefix);
    var moved := DestKey(destPath, srcKey, prefix);
    DestKeyRebases(prefix, moved, destPath);
    assert moved[|destPath|..] == srcKey[|prefix|..];
  }

  /**
   * A key NOT under the current prefix (a selection kept from another folder)
   * loses an occurrence of the prefix from its middle.
   */
  lemma DestKeyOfForeignKey()
    ensures DestKey("dst/", "x/a/f", "a/") == "dst/x/f"
  {
    var s := "x/a/f";
    assert s[0..2][0] != "a/"[0] && s[1..3][0] != "a/"[0];
    assert OccursAt(s, "a/", 2);
    assert s[..2] + s[4..] == "x/f";
  }

  /** `currentPrefix + name + '/'`: the key of a new folder. */
  function NewFolderKey(prefix: string, name: string): (key: string)
    ensures |key| == |prefix| + |name| + 1
    ensures prefix <= key && key[|key| - 1] == '/'
    ensures key[|prefix|..|key| - 1] == name
  {
    prefix + name + "/"
  }

  /** A new folder with a valid name shows up under its name, and its parent is the prefix it was created in. */
  lemma NewFolderRoundTrip(prefix: string, name: string)
    requires Canonical(prefix)
    requires name != [] && '/' !in name
    ensures FolderName(NewFolderKey(prefix, name), prefix) == name
    ensures ParentPrefix(NewFolderKey(prefix, name)) == prefix
    ensures Canonical(NewFolderKey(prefix, name))
  {
    FolderNameOfChild(prefix, name);
    ParentOfChild(prefix, name);
    var parts := Components(prefix);
    PrefixOfSnoc(parts, name);
    assert ValidParts(parts + [name]);
    PrefixOfCanonical(parts + [name]);
  }

  /** `currentPrefix + file.name`: the key of an uploaded file. */
  function UploadKey(prefix: string, fileName: string): (key: string)
    ensures prefix <= key && |key| == |prefix| + |fileName|
    ensures key[|prefix|..] == fileName
  {
    prefix + fileName
  }

  /** An uploaded file is listed under the name it was uploaded with. */
  lemma UploadRoundTrip(prefix: string, fileName: string)
    ensures FileName(UploadKey(prefix, fileName), prefix) == fileName
  {
    FileNameUnderPrefix(UploadKey(prefix, fileName), prefix);
  }
}
