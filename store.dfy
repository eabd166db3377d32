/**
 * The documents directory and the five request handlers. The directory is
 * mutable state: whether it exists, the file names in listing order, and
 * the record each file holds. CREATE, SAVE and DELETE change it in place;
 * FETCH_ALL and FETCH only read it.
 */
module Store {
  import opened Outcomes
  import opened Strings
  import opened Sequences
  import opened Naming
  import opened Listing

  /** Why a handler's promise rejects. */
  datatype StoreError =
    | DirectoryMissing  // `readdir` of a documents directory that was never created
    | IsADirectory      // `readFile` of the documents directory itself
    | NoSuchFile        // `readFile` of a name that is not in the directory

  /** How the fire-and-forget `mkdir` + `writeFile` of CREATE and SAVE ends. */
  datatype WriteOutcome =
    | Written      // both succeed: the file is there
    | WriteFailed  // the directory is there, the write failed and was only logged
    | MkdirFailed  // `mkdir` failed and was only logged: nothing changes

  class DocumentStore {
    var dirExists: bool
    var names: seq<string>
    var files: map<string, Document>

    /** A directory listing: distinct, non-empty names, each holding one record. */
    ghost predicate Valid()
      reads this
    {
      && Distinct(names)
      && (forall n :: n in names <==> n in files)
      && (forall n :: n in names ==> n != [])
      && (!dirExists ==> names == [])
    }

    /** A store whose directory has not been created yet. */
    constructor ()
      ensures Valid()
      ensures !dirExists && names == [] && files == map[]
    {
      dirExists := false;
      names := [];
      files := map[];
    }

    /** `fs.readFile` of a path, with the stored record standing for the parsed JSON. */
    function ReadFile(p: Path): (r: Result<Document, StoreError>)
      reads this
      ensures r.Ok? <==> p.DocumentFile? && p.name in files
      ensures r.Ok? ==> r.value == files[p.name]
    {
      match p
      case DocumentsDir => Err(IsADirectory)
      case DocumentFile(name) => if name in files then Ok(files[name]) else Err(NoSuchFile)
    }

    /** FETCH_ALL: one summary per file, in listing order; rejects when there is no directory. */
    function FetchAll(): (r: Result<seq<Summary>, StoreError>)
      reads this
      ensures r.Ok? <==> dirExists
      ensures r.Err? ==> r.error == DirectoryMissing
      ensures r.Ok? ==> |r.value| == |names|
      ensures r.Ok? ==> forall i :: 0 <= i < |names| ==>
        r.value[i].title == ListedTitle(names[i]) && r.value[i].id == ListedId(names[i])
    {
      if !dirExists then Err(DirectoryMissing) else Ok(ListAll(names))
    }

    /**
     * FETCH: the record of the first file, in listing order, whose name
     * contains `id`. With no such file the documents directory itself is
     * read, which fails: there is never a default document.
     */
    function Fetch(id: string): (r: Result<Document, StoreError>)
      reads this
      requires Valid()
      ensures !dirExists ==> r == Err(DirectoryMissing)
      ensures dirExists ==> (r.Ok? <==> exists n :: n in names && Contains(n, id))
      ensures dirExists && (forall n :: n in names ==> !Contains(n, id)) ==> r == Err(IsADirectory)
      ensures r.Ok? ==> exists k :: (0 <= k < |names| && Contains(names[k], id)
        && (forall j :: 0 <= j < k ==> !Contains(names[j], id)) && r.value == files[names[k]])
    {
      if !dirExists then Err(DirectoryMissing)
      else
        var current := match FirstContaining(names, id)
          case None =>
            assert forall n :: n in names ==> !Contains(n, id);
            None
          case Some(k) =>
            assert names[k] in names;
            Some(names[k]);
        ReadFile(DocumentsPath(current))
    }

    /** `fs.writeFile` of a record under `name` in an existing directory. */
    method WriteFile(name: string, doc: Document)
      requires Valid() && dirExists && name != []
      modifies this
      ensures Valid() && dirExists
      ensures names == WithName(old(names), name)
      ensures files == old(files)[name := doc]
    {
      names := WithName(names, name);
      files := files[name := doc];
    }

    /** `fs.unlinkSync` of a file that is in the directory. */
    method Unlink(name: string)
      requires Valid() && name in names
      modifies this
      ensures Valid() && dirExists == old(dirExists)
      ensures names == Without(old(names), name)
      ensures files == old(files) - {name}
    {
      names := Without(names, name);
      files := files - {name};
    }

    /**
     * CREATE: the new note `{id, title: "Untitled"}` is returned at once;
     * `Untitled-<id>.json` with that record appears only if the background
     * `mkdir` and write succeed. `id` stands for the value of `randomUUID`,
     * which no file name contains yet.
     */
    method Create(id: string, outcome: WriteOutcome) returns (doc: Document)
      requires Valid()
      requires forall n :: n in names ==> !Contains(n, id)
      modifies this
      ensures Valid()
      ensures doc == Document(id, DefaultTitle, None)
      ensures dirExists == (old(dirExists) || outcome != MkdirFailed)
      ensures names == if outcome == Written then old(names) + [CreatedName(id)] else old(names)
      ensures forall n :: n in old(names) ==> files[n] == old(files)[n]
      ensures outcome == Written ==> files[CreatedName(id)] == doc && Fetch(id) == Ok(doc)
    {
      doc := Document(id, DefaultTitle, None);
      var current := FileName(doc.title, id, MetadataExt);
      assert current !in names;
      if outcome != MkdirFailed {
        dirExists := true;
        if outcome == Written {
          WriteFile(current, doc);
          CreatedIsFound(old(names), id);
        }
      }
    }

    /**
     * The synchronous part of SAVE: `readdirSync`, the `filter` of stale
     * names, and one `unlinkSync` per stale name.
     */
    method RemoveStale(id: string, title: string)
      requires Valid() && dirExists
      modifies this
      ensures Valid() && dirExists
      ensures names == Survivors(old(names), id, title)
      ensures forall n :: n in names ==> files[n] == old(files)[n]
    {
      var stale := StaleFiles(names, id, title);
      ghost var listed := names;
      ghost var stored := files;
      ghost var gone: set<string> := {};
      ExceptNothing(listed, gone);
      var i := 0;
      while i < |stale|
        invariant 0 <= i <= |stale|
        invariant Valid() && dirExists
        invariant forall n :: n in gone <==> n in stale[..i]
        invariant names == Except(listed, gone)
        invariant files == stored - gone
      {
        assert stale[i] !in stale[..i] by {
          DistinctPrefixDisjoint(stale, i);
        }
        Unlink(stale[i]);
        ExceptOneMore(listed, gone, stale[i]);
        gone := gone + {stale[i]};
        i := i + 1;
        assert stale[..i] == stale[..i - 1] + [stale[i - 1]];
      }
      assert stale[..i] == stale;
      ExceptStale(listed, gone, id, title);
    }

    /**
     * SAVE: `mkdir` is issued first and runs in the background; then,
     * synchronously, every file whose name contains `id` but not
     * `<title>-<id>` is deleted; then, from the `mkdir` callback, which
     * runs only after the handler's synchronous part, `{id, title, content}`
     * is written to `<title>-<id>.html` if the write succeeds. With no
     * directory, `readdirSync` throws unless the background `mkdir` has
     * already created it (`mkdirFirst`), in which case it lists nothing;
     * either way there is nothing to delete and the write is still attempted.
     */
    method Save(id: string, title: string, content: Option<string>, mkdirFirst: bool, outcome: WriteOutcome)
      returns (r: Result<(), StoreError>)
      requires Valid()
      modifies this
      ensures Valid()
      ensures r == if old(dirExists) || (mkdirFirst && outcome != MkdirFailed) then Ok(()) else Err(DirectoryMissing)
      ensures dirExists == (old(dirExists) || outcome != MkdirFailed)
      ensures var cleaned := if old(dirExists) then Survivors(old(names), id, title) else old(names);
        names == if outcome == Written then WithName(cleaned, FileName(title, id, ContentExt)) else cleaned
      ensures forall n :: n in names && n != FileName(title, id, ContentExt) ==> files[n] == old(files)[n]
      ensures outcome != Written ==> forall n :: n in names ==> files[n] == old(files)[n]
      ensures outcome == Written ==> files[FileName(title, id, ContentExt)] == Document(id, title, content)
      ensures forall n :: n in names && Contains(n, id) ==> Contains(n, SaveKey(title, id))
      ensures outcome == Written ==> Fetch(id).Ok?
    {
      var current := FileName(title, id, ContentExt);
      var doc := Document(id, title, content);
      if !dirExists && mkdirFirst && outcome != MkdirFailed {
        dirExists := true;
      }
      if !dirExists {
        r := Err(DirectoryMissing);
      } else {
        ghost var listed := names;
        RemoveStale(id, title);
        CleanupSpec(listed, id, title);
        r := Ok(());
      }
      if outcome != MkdirFailed {
        dirExists := true;
        if outcome == Written {
          WriteFile(current, doc);
          assert Contains(current, id);
        }
      }
    }

    /**
     * DELETE: unlinks the first file whose name contains `id`, if any;
     * with no match nothing changes and nothing fails.
     */
    method Delete(id: string) returns (r: Result<(), StoreError>)
      requires Valid()
      modifies this
      ensures Valid()
      ensures r == if old(dirExists) then Ok(()) else Err(DirectoryMissing)
      ensures dirExists == old(dirExists)
      ensures names == RemoveFirst(old(names), id)
      ensures forall n :: n in names ==> files[n] == old(files)[n]
    {
      if !dirExists {
        r := Err(DirectoryMissing);
        return;
      }
      var file := FirstContaining(names, id);
      if file.Some? {
        WithoutAt(names, file.value);
        Unlink(names[file.value]);
      }
      r := Ok(());
    }
  }

  /** An element of a duplicate-free sequence is not among the elements before it. */
  lemma {:induction false} DistinctPrefixDisjoint(s: seq<string>, i: nat)
    requires Distinct(s) && i < |s|
    ensures s[i] !in s[..i]
  {
    if i > 0 {
      assert s[i] in s[1..];
      DistinctPrefixDisjoint(s[1..], i - 1);
      assert s[..i] == [s[0]] + s[1..][..i - 1];
    }
  }

  /** Removing exactly the stale names is the cleanup. */
  lemma {:induction false} ExceptStale(names: seq<string>, gone: set<string>, id: string, title: string)
    requires forall n :: n in gone <==> n in StaleFiles(names, id, title)
    ensures Except(names, gone) == Survivors(names, id, title)
  {
    ExceptMatches(names, gone, id, title);
  }

  lemma {:induction false} ExceptMatches(names: seq<string>, gone: set<string>, id: string, title: string)
    requires forall n :: n in names ==> (n in gone <==> Stale(n, id, title))
    ensures Except(names, gone) == Survivors(names, id, title)
  {
    if names != [] {
      ExceptMatches(names[1..], gone, id, title);
    }
  }
}
