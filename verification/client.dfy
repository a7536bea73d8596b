/**
 * The browser client's state: the selected bucket, the current prefix and the
 * multi-selection, with the handlers that change them. Every handler returns
 * the requests it would send instead of sending them.
 */
module Client {
  import opened Js
  import opened Paths
  import opened Selection
  import opened Breadcrumb
  import opened Requests

  /** A rendered row of the listing: the ".." row, or a folder or file row that selects its item. */
  datatype Entry = ParentRow | Row(item: Item)

  const SelectBucketFirst := "Please select a bucket first"

  class ClientState {
    /** `currentBucket`: `null` until a bucket is chosen. */
    var bucket: Option<string>
    /** `currentPrefix`: "" at the bucket's root. */
    var prefix: string
    /** `selectedItems` and the highlighted rows. */
    var selection: Selection

    ghost predicate Valid()
      reads this
    {
      WellFormed(selection)
    }

    constructor ()
      ensures Valid()
      ensures bucket == None && prefix == [] && selection == Empty
    {
      bucket := None;
      prefix := [];
      selection := Empty;
    }

    /** `loadContents`: one listing request for the current bucket and prefix, none while no bucket is chosen. */
    function Listing(): (reqs: seq<Request>)
      reads this
      ensures |reqs| <= 1
      ensures reqs == [] <==> !Truthy(bucket)
      ensures reqs != [] ==> reqs[0] == ListObjects(bucket.value, prefix)
    {
      if Truthy(bucket) then [ListObjects(bucket.value, prefix)] else []
    }

    /** A click on a bucket: it becomes current, the prefix goes back to the root, the selection stays. */
    method SelectBucket(name: string) returns (reqs: seq<Request>)
      modifies this
      ensures bucket == Some(name) && prefix == [] && selection == old(selection)
      ensures reqs == Listing()
    {
      bucket := Some(name);
      prefix := [];
      reqs := Listing();
    }

    /** A breadcrumb or folder click: only the prefix changes. */
    method NavigateTo(target: string) returns (reqs: seq<Request>)
      modifies this
      ensures prefix == target && bucket == old(bucket) && selection == old(selection)
      ensures reqs == Listing()
    {
      prefix := target;
      reqs := Listing();
    }

    /** A double click on the ".." row: go to the parent prefix, which drops the last component. */
    method GoUp() returns (reqs: seq<Request>)
      modifies this
      ensures prefix == ParentPrefix(old(prefix)) && bucket == old(bucket) && selection == old(selection)
      ensures Components(prefix) == DropLast(Components(old(prefix)))
      ensures reqs == Listing()
    {
      ParentDropsLastComponent(prefix);
      reqs := NavigateTo(ParentPrefix(prefix));
    }

    /**
     * `updateBreadcrumb`: the bucket, then one segment per component of the
     * prefix, each navigating to the components accumulated up to it. The
     * source's handlers all share one `path` variable instead (see
     * `AsWrittenTrail`); this is the trail they evidently mean to build.
     */
    method UpdateBreadcrumb() returns (trail: seq<Segment>)
      ensures trail == CumulativeTrail(BucketLabel(bucket), prefix)
    {
      var root := BucketLabel(bucket);
      trail := [Segment(root, "")];
      if prefix != [] {
        var parts := Components(prefix);
        var path := "";
        var i := 0;
        while i < |parts|
          invariant 0 <= i <= |parts|
          invariant path == PrefixOf(parts[..i])
          invariant trail == [Segment(root, "")] + CumulativeSegments(parts[..i])
        {
          assert parts[..i + 1] == parts[..i] + [parts[i]];
          PrefixOfSnoc(parts[..i], parts[i]);
          CumulativeSegmentsSnoc(parts[..i], parts[i]);
          path := path + parts[i] + "/";
          trail := trail + [Segment(parts[i], path)];
          i := i + 1;
        }
        assert parts[..i] == parts;
      } else {
        ComponentsOfPrefix([]);
      }
    }

    /**
     * The listing reply (`data.folders || []`, `data.files || []`): the
     * breadcrumb and rows are rebuilt, which removes every highlight; the
     * selection itself is kept.
     */
    method ContentsLoaded(folders: Option<seq<string>>, files: Option<seq<string>>)
      returns (trail: seq<Segment>, entries: seq<Entry>)
      requires Valid()
      modifies this
      ensures Valid()
      ensures bucket == old(bucket) && prefix == old(prefix) && selection == Render(old(selection))
      ensures trail == CumulativeTrail(BucketLabel(bucket), prefix)
      ensures entries == FileListing(prefix, OrEmpty(folders), OrEmpty(files))
    {
      trail := UpdateBreadcrumb();
      entries := FileList(prefix, OrEmpty(folders), OrEmpty(files));
      selection := Render(selection);
    }

    /** A click on a folder or file row, with or without the modifier key. */
    method SelectItem(path: string, kind: Kind, additive: bool)
      requires Valid()
      modifies this
      ensures Valid()
      ensures selection == Select(old(selection), Item(path, kind), additive)
      ensures bucket == old(bucket) && prefix == old(prefix)
    {
      SelectWellFormed(selection, Item(path, kind), additive);
      selection := Select(selection, Item(path, kind), additive);
    }

    /**
     * `copyItems`/`moveItems`: one request per selected item, in the Map's
     * iteration order, each re-rooting the key under `destPath`; then the
     * listing is reloaded straight away.
     */
    method TransferItems(op: Transfer, destBucket: string, destPath: string) returns (reqs: seq<Request>)
      requires Valid()
      ensures |reqs| == |selection.items| + |Listing()|
      ensures reqs == TransferBatch(op, bucket, Values(selection), destBucket, destPath, prefix) + Listing()
    {
      ValuesVisitEachOnce(selection);
      reqs := Transfers(op, bucket, Values(selection), destBucket, destPath, prefix);
      reqs := reqs + Listing();
    }

    /**
     * `deleteSelected`: nothing unless confirmed; then one request per
     * selected item, in the Map's iteration order.
     */
    method DeleteSelected(confirmed: bool) returns (reqs: seq<Request>)
      requires Valid()
      ensures !confirmed ==> reqs == []
      ensures confirmed ==> |reqs| == |selection.items| && reqs == DeleteBatch(bucket, Values(selection))
    {
      ValuesVisitEachOnce(selection);
      reqs := [];
      if confirmed {
        reqs := Deletes(bucket, Values(selection));
      }
    }

    /** The "New Folder" button: refused with a notice while no bucket is chosen. */
    function NewFolderRefusal(): (n: Option<Notice>)
      reads this
      ensures n.Some? <==> !Truthy(bucket)
      ensures n.Some? ==> !n.value.success && n.value.text == SelectBucketFirst
    {
      if Truthy(bucket) then None else Some(Notice(SelectBucketFirst, false))
    }

    /**
     * `createFolder`: an empty name sends nothing; otherwise the folder key
     * under the current prefix, which lists back under that name one level down.
     */
    method CreateFolderRequests(name: string) returns (reqs: seq<Request>)
      ensures name == [] ==> reqs == []
      ensures name != [] ==> |reqs| == 1 && reqs[0].CreateFolder? && reqs[0].folderBucket == bucket
      ensures name != [] ==> prefix <= reqs[0].folder && |reqs[0].folder| > |prefix| && reqs[0].folder[|reqs[0].folder| - 1] == '/'
      ensures name != [] ==> reqs[0].folder[|prefix|..|reqs[0].folder| - 1] == name
      ensures name != [] && '/' !in name && Canonical(prefix) ==>
        && FolderName(reqs[0].folder, prefix) == name
        && ParentPrefix(reqs[0].folder) == prefix
    {
      if name == [] {
        reqs := [];
      } else {
        reqs := [CreateFolder(bucket, NewFolderKey(prefix, name))];
        if '/' !in name && Canonical(prefix) {
          NewFolderRoundTrip(prefix, name);
        }
      }
    }

    /**
     * `uploadFiles`: refused with a notice while no bucket is chosen;
     * otherwise one upload per chosen file, keyed by the prefix and the file's name.
     */
    method UploadFiles(names: seq<string>) returns (reqs: seq<Request>, notice: Option<Notice>)
      ensures !Truthy(bucket) ==> reqs == [] && notice == Some(Notice(SelectBucketFirst, false))
      ensures Truthy(bucket) ==> notice == None && |reqs| == |names|
      ensures Truthy(bucket) ==> reqs == UploadBatch(bucket.value, prefix, names)
    {
      reqs := [];
      if !Truthy(bucket) {
        notice := Some(Notice(SelectBucketFirst, false));
        return;
      }
      notice := None;
      reqs := Uploads(bucket.value, prefix, names);
    }

    /**
     * The reply to one item request: its notice, and for deletes, folder
     * creation and uploads a reload of the listing after a success.
     */
    method ItemReplied(r: Request, o: Outcome) returns (notice: Option<Notice>, reqs: seq<Request>)
      requires IsItemRequest(r)
      ensures notice == Settle(r, o)
      ensures reqs != [] <==> Succeeded(o) && !r.TransferObject? && Truthy(bucket)
      ensures reqs != [] ==> reqs == Listing()
    {
      notice := Settle(r, o);
      reqs := if Succeeded(o) && !r.TransferObject? then Listing() else [];
    }

    /**
     * The bucket-delete reply. On success the bucket list is reloaded, and if
     * the deleted bucket is the current one the client goes back to no
     * bucket at the root and re-renders an unlabelled breadcrumb and an empty
     * listing; the selection is not cleared. A failure changes nothing.
     * `trail` and `entries` are what is re-rendered, both empty when nothing is.
     */
    method BucketDeleted(name: string, o: Outcome) returns (reqs: seq<Request>, notice: Notice, trail: seq<Segment>, entries: seq<Entry>)
      requires Valid()
      modifies this
      ensures Valid()
      ensures notice.success <==> Succeeded(o)
      ensures Succeeded(o) ==> reqs == [ListBuckets] && notice.text == o.reply.message.value
      ensures !Succeeded(o) ==> reqs == []
      ensures o.NetworkError? ==> notice == Notice(NetworkErrorText, false)
      ensures o.Answered? && !Succeeded(o) ==> notice == Notice(OrElse(o.reply.error, "Delete failed"), false)
      ensures Succeeded(o) && old(bucket) == Some(name) ==>
        && bucket == None && prefix == [] && selection == Render(old(selection))
        && trail == [Segment("", "")] && entries == []
      ensures !(Succeeded(o) && old(bucket) == Some(name)) ==>
        && bucket == old(bucket) && prefix == old(prefix) && selection == old(selection)
        && trail == [] && entries == []
    {
      reqs, trail, entries := [], [], [];
      match o
      case NetworkError =>
        notice := Notice(NetworkErrorText, false);
      case Answered(reply) =>
        if Truthy(reply.message) {
          notice := Notice(reply.message.value, true);
          reqs := [ListBuckets];
          if bucket == Some(name) {
            bucket := None;
            prefix := [];
            trail, entries := ContentsLoaded(Some([]), Some([]));
          }
        } else {
          notice := Notice(OrElse(reply.error, "Delete failed"), false);
        }
    }
  }

  /** `parts.pop()` on a copy: the list without its last element; popping an empty list leaves it empty. */
  function DropLast(parts: seq<string>): (r: seq<string>)
    ensures parts != [] ==> r + [parts[|parts| - 1]] == parts
    ensures parts == [] ==> r == []
  {
    if parts == [] then [] else parts[..|parts| - 1]
  }

  /** `list || []`. */
  function OrEmpty(list: Option<seq<string>>): seq<string> {
    if list.Some? then list.value else []
  }

  // ---------------------------------------------------------------------------
  // The listing

  /**
   * The text a row shows under `prefix`: ".." for the parent row, a folder
   * with the prefix and then its first `/` removed, a file with the prefix removed.
   */
  function Shown(e: Entry, prefix: string): string {
    match e
    case ParentRow => ".."
    case Row(Item(path, Folder)) => FolderName(path, prefix)
    case Row(Item(path, File)) => FileName(path, prefix)
  }

  /** One row per listed path, each selecting that path with its kind. */
  function RowsOf(paths: seq<string>, kind: Kind): seq<Entry> {
    seq(|paths|, k requires 0 <= k < |paths| => Row(Item(paths[k], kind)))
  }

  /** The rows `updateFileList` renders: "..", when below the root, then the folders, then the files. */
  function FileListing(prefix: string, folders: seq<string>, files: seq<string>): seq<Entry> {
    (if prefix != [] then [ParentRow] else []) + RowsOf(folders, Folder) + RowsOf(files, File)
  }

  /** `updateFileList`'s two `forEach` loops. */
  method FileList(prefix: string, folders: seq<string>, files: seq<string>) returns (entries: seq<Entry>)
    ensures entries == FileListing(prefix, folders, files)
  {
    var folderRows := Rows(folders, Folder);
    var fileRows := Rows(files, File);
    entries := (if prefix != [] then [ParentRow] else []) + folderRows + fileRows;
  }

  /** One `forEach` of `updateFileList`: a row per listed path, in listing order. */
  method Rows(paths: seq<string>, kind: Kind) returns (rows: seq<Entry>)
    ensures rows == RowsOf(paths, kind)
  {
    rows := [];
    var i := 0;
    while i < |paths|
      invariant 0 <= i <= |paths|
      invariant rows == RowsOf(paths[..i], kind)
    {
      assert paths[..i + 1] == paths[..i] + [paths[i]];
      rows := rows + [Row(Item(paths[i], kind))];
      i := i + 1;
    }
    assert paths[..i] == paths;
  }

  /**
   * The listing's layout: below the root the first row is "..", then one row
   * per folder, then one per file, each in listing order and selecting its own path.
   */
  lemma ListingLayout(prefix: string, folders: seq<string>, files: seq<string>)
    ensures var rows := FileListing(prefix, folders, files);
      var head := if prefix != [] then 1 else 0;
      && |rows| == head + |folders| + |files|
      && (prefix != [] ==> rows[0] == ParentRow)
      && (forall i :: 0 <= i < |folders| ==> rows[head + i] == Row(Item(folders[i], Folder)))
      && (forall i :: 0 <= i < |files| ==> rows[head + |folders| + i] == Row(Item(files[i], File)))
  {
    var top: seq<Entry> := if prefix != [] then [ParentRow] else [];
    var folderRows, fileRows := RowsOf(folders, Folder), RowsOf(files, File);
    var rows := top + folderRows + fileRows;
    assert rows == FileListing(prefix, folders, files);
    forall i | 0 <= i < |folders|
      ensures rows[|top| + i] == Row(Item(folders[i], Folder))
    {
      assert rows[|top| + i] == folderRows[i];
    }
    forall i | 0 <= i < |files|
      ensures rows[|top| + |folders| + i] == Row(Item(files[i], File))
    {
      assert rows[|top| + |folders| + i] == fileRows[i];
    }
  }

  /** A folder one level below the prefix is shown by its own component. */
  lemma FolderRowShowsComponent(prefix: string, c: string)
    requires '/' !in c
    ensures Shown(Row(Item(prefix + c + "/", Folder)), prefix) == c
  {
    FolderNameOfChild(prefix, c);
  }

  /** A file under the prefix is shown by the rest of its key, which the prefix completes back to the key. */
  lemma FileRowShowsRest(prefix: string, path: string)
    requires prefix <= path
    ensures Shown(Row(Item(path, File)), prefix) == path[|prefix|..]
    ensures prefix + Shown(Row(Item(path, File)), prefix) == path
  {
    FileNameUnderPrefix(path, prefix);
  }

  // ---------------------------------------------------------------------------
  // Per-item requests of the bulk actions

  /** The copy/move body for one selected item: `dest_key = destPath + path.replace(currentPrefix, '')`. */
  function TransferRequest(op: Transfer, src: Option<string>, item: Item, destBucket: string, destPath: string, prefix: string): Request {
    TransferObject(op, src, item.path, destBucket, DestKey(destPath, item.path, prefix))
  }

  function TransferBatch(op: Transfer, src: Option<string>, items: seq<Item>, destBucket: string, destPath: string, prefix: string): seq<Request> {
    seq(|items|, k requires 0 <= k < |items| => TransferRequest(op, src, items[k], destBucket, destPath, prefix))
  }

  /** The `forEach` of `copyItems`/`moveItems`: one request per item, in order. */
  method Transfers(op: Transfer, src: Option<string>, items: seq<Item>, destBucket: string, destPath: string, prefix: string)
    returns (reqs: seq<Request>)
    ensures reqs == TransferBatch(op, src, items, destBucket, destPath, prefix)
  {
    reqs := [];
    var i := 0;
    while i < |items|
      invariant 0 <= i <= |items|
      invariant reqs == TransferBatch(op, src, items[..i], destBucket, destPath, prefix)
    {
      assert items[..i + 1] == items[..i] + [items[i]];
      reqs := reqs + [TransferRequest(op, src, items[i], destBucket, destPath, prefix)];
      i := i + 1;
    }
    assert items[..i] == items;
  }

  /**
   * A batch names each item once, as source, from the current bucket; an item
   * under the current prefix lands at `destPath` plus the rest of its key,
   * and the opposite transfer would bring it back to its own key.
   */
  lemma TransferBatchRebases(op: Transfer, src: Option<string>, items: seq<Item>, destBucket: string, destPath: string, prefix: string)
    ensures var batch := TransferBatch(op, src, items, destBucket, destPath, prefix);
      && |batch| == |items|
      && (forall i :: 0 <= i < |items| ==>
            batch[i].TransferObject? && batch[i].op == op && batch[i].srcBucket == src &&
            batch[i].srcKey == items[i].path && batch[i].destBucket == destBucket)
      && (forall i :: 0 <= i < |items| && prefix <= items[i].path ==>
            && batch[i].destKey == destPath + items[i].path[|prefix|..]
            && DestKey(prefix, batch[i].destKey, destPath) == items[i].path)
  {
    var batch := TransferBatch(op, src, items, destBucket, destPath, prefix);
    forall i | 0 <= i < |items| && prefix <= items[i].path
      ensures batch[i].destKey == destPath + items[i].path[|prefix|..]
      ensures DestKey(prefix, batch[i].destKey, destPath) == items[i].path
    {
      DestKeyRebases(destPath, items[i].path, prefix);
      DestKeyRoundTrip(destPath, items[i].path, prefix);
    }
  }

  /** `deleteSelected`'s routing: `type === 'file'` to the file endpoint, anything else to the folder endpoint. */
  function DeleteRequest(src: Option<string>, item: Item): Request {
    if item.kind == File then DeleteFile(src, item.path) else DeleteFolder(src, item.path)
  }

  function DeleteBatch(src: Option<string>, items: seq<Item>): seq<Request> {
    seq(|items|, k requires 0 <= k < |items| => DeleteRequest(src, items[k]))
  }

  /** The `forEach` of `deleteSelected`: one delete per item, in order. */
  method Deletes(src: Option<string>, items: seq<Item>) returns (reqs: seq<Request>)
    ensures reqs == DeleteBatch(src, items)
  {
    reqs := [];
    var i := 0;
    while i < |items|
      invariant 0 <= i <= |items|
      invariant reqs == DeleteBatch(src, items[..i])
    {
      assert items[..i + 1] == items[..i] + [items[i]];
      reqs := reqs + [DeleteRequest(src, items[i])];
      i := i + 1;
    }
    assert items[..i] == items;
  }

  /** A file goes to the file endpoint and anything else to the folder endpoint, each with the item's own path. */
  lemma DeleteRouting(src: Option<string>, item: Item)
    ensures var r := DeleteRequest(src, item);
      && (r.DeleteFile? <==> item.kind == File)
      && (r.DeleteFile? || r.DeleteFolder?)
      && (r.DeleteFile? ==> r == DeleteFile(src, item.path))
      && (r.DeleteFolder? ==> r == DeleteFolder(src, item.path))
  {}

  /** Every selected item gets exactly one delete, in iteration order. */
  lemma DeleteBatchCovers(src: Option<string>, sel: Selection)
    requires WellFormed(sel)
    ensures var batch := DeleteBatch(src, Values(sel));
      && |batch| == |sel.items|
      && (forall i :: 0 <= i < |batch| ==> batch[i] == DeleteRequest(src, sel.items[sel.order[i]]))
      && (forall k :: k in sel.items ==> DeleteRequest(src, sel.items[k]) in batch)
  {
    ValuesVisitEachOnce(sel);
    var values := Values(sel);
    var batch := DeleteBatch(src, values);
    forall i | 0 <= i < |batch|
      ensures batch[i] == DeleteRequest(src, sel.items[sel.order[i]])
    {
      assert values[i] == sel.items[sel.order[i]];
    }
    forall k | k in sel.items
      ensures DeleteRequest(src, sel.items[k]) in batch
    {
      assert k in sel.order;
      var i :| 0 <= i < |sel.order| && sel.order[i] == k;
      assert batch[i] == DeleteRequest(src, sel.items[k]);
    }
  }

  /** One upload per chosen file, in the order chosen. */
  function UploadBatch(bucket: string, prefix: string, names: seq<string>): seq<Request> {
    seq(|names|, k requires 0 <= k < |names| => Upload(bucket, UploadKey(prefix, names[k])))
  }

  /** The loop over the chosen files of `uploadFiles`: one upload per file, in order. */
  method Uploads(bucket: string, prefix: string, names: seq<string>) returns (reqs: seq<Request>)
    ensures reqs == UploadBatch(bucket, prefix, names)
  {
    reqs := [];
    var i := 0;
    while i < |names|
      invariant 0 <= i <= |names|
      invariant reqs == UploadBatch(bucket, prefix, names[..i])
    {
      assert names[..i + 1] == names[..i] + [names[i]];
      reqs := reqs + [Upload(bucket, UploadKey(prefix, names[i]))];
      i := i + 1;
    }
    assert names[..i] == names;
  }

  /** Each uploaded file goes to the current bucket and is listed back, under the current prefix, by its own name. */
  lemma UploadBatchNames(bucket: string, prefix: string, names: seq<string>)
    ensures var batch := UploadBatch(bucket, prefix, names);
      && |batch| == |names|
      && forall i :: 0 <= i < |names| ==>
           batch[i].uploadBucket == bucket && prefix <= batch[i].uploadKey && FileName(batch[i].uploadKey, prefix) == names[i]
  {
    forall i | 0 <= i < |names|
      ensures FileName(UploadKey(prefix, names[i]), prefix) == names[i]
    {
      UploadRoundTrip(prefix, names[i]);
    }
  }
}
